/**
 * `custom::BST<T>` of bst.h with `T = int`: an unbalanced binary search tree
 * of heap nodes with parent back-links, and its bidirectional iterator.
 *
 * The heap holding a tree's nodes is the arena `nodes`; a `Ptr` into it plays
 * the part of a `BNode*`.  `new BNode` appends a cell; `delete` leaves the
 * cell behind, unreachable.  The ghost field `shape` is the tree the links
 * describe, and every operation is stated as what it does to `shape`.
 */
module Bst {
  import opened BstTree
  import opened BstLinks
  import opened BstOps
  import opened BstSplice

  /** `BST<T>::iterator`: the node it refers to, `Null` for `end()`. */
  datatype Iterator = Iterator(pNode: Ptr)

  /** `end()`: the iterator past the last element. */
  function End(): (it: Iterator)
    ensures it.pNode == Null
  {
    Iterator(Null)
  }

  /**
   * Postfix `it++` of bst.h: returns the iterator as it is and does not
   * move it, unlike prefix `++` (see `BST.Increment` and `PostfixStaysPut`).
   */
  function PostIncrement(it: Iterator): (r: Iterator)
    ensures r.pNode == it.pNode
  {
    it
  }

  /** Postfix `it--` of bst.h: like `PostIncrement`, a no-op. */
  function PostDecrement(it: Iterator): (r: Iterator)
    ensures r.pNode == it.pNode
  {
    it
  }

  /**
   * The traversal of `s` is the traversal of `s0` without the node `x`, and
   * `next` refers to the node that followed `x` (`end()` if none did).
   */
  ghost predicate Dropped(s0: Tree, x: Ptr, s: Tree, next: Iterator) {
    forall k | 0 <= k < |Order(s0)| && k < |Contents(s0)| && Order(s0)[k] == x ::
      Order(s) == Order(s0)[..k] + Order(s0)[k + 1..] &&
      Contents(s) == Contents(s0)[..k] + Contents(s0)[k + 1..] &&
      next.pNode == if k + 1 < |Order(s0)| then Order(s0)[k + 1] else Null
  }

  /**
   * A unique insert of `il[i]` into contents holding each of the first `i`
   * values of `il` once yields contents holding each of the first `i + 1` once.
   */
  lemma UniqueStep(c0: seq<int>, c1: seq<int>, il: seq<int>, i: nat, inserted: bool)
    requires i < |il|
    requires forall v :: multiset(c0)[v] == if v in il[..i] then 1 else 0
    requires inserted <==> il[i] !in c0
    requires inserted ==> multiset(c1) == multiset(c0) + multiset{il[i]}
    requires !inserted ==> c1 == c0
    ensures forall v :: multiset(c1)[v] == if v in il[..i + 1] then 1 else 0
  {
    assert il[i] in c0 <==> multiset(c0)[il[i]] > 0;
    assert il[..i + 1] == il[..i] + [il[i]];
  }

  /**
   * A `BNode*&` that the recursive helpers write through: the tree's own
   * `root`, or the left or right child pointer of the cell `owner`.
   */
  datatype Slot = RootSlot | LeftOf(owner: nat) | RightOf(owner: nat)

  /** The arena after writing `v` through the slot `s`; the root pointer lies outside the arena. */
  function Stored(ns: seq<BNode>, s: Slot, v: Ptr): seq<BNode>
    requires s.RootSlot? || s.owner < |ns|
  {
    match s
    case RootSlot => ns
    case LeftOf(o) => ns[o := Link'(ns[o], L, v)]
    case RightOf(o) => ns[o := Link'(ns[o], R, v)]
  }

  /**
   * The last step of `assignBinaryTree`: the reused or fresh cell `p` over
   * the two copied subtrees `lt` and `rt` is a copy of `st` hanging below
   * `par`, and no cell outside `dt` changed but the slot `s`.  `ns0` is the
   * arena before the call, `ns1` after taking the cell, `ns2` after copying
   * the left subtree and `ns3` after copying the right one.
   */
  lemma AssembleCopy(ns0: seq<BNode>, ns1: seq<BNode>, ns2: seq<BNode>, ns3: seq<BNode>, s: Slot, p: nat,
                     st: Tree, dt: Tree, dl: Tree, dr: Tree, lt: Tree, rt: Tree, par: Ptr)
    requires (s.RootSlot? || s.owner < |ns0|) && st.Node?
    requires |ns0| <= |ns1| <= |ns2| <= |ns3| && p < |ns1|
    requires dt.Node? ==> p == dt.id && dl == dt.left && dr == dt.right
    requires dt.Nil? ==> p == |ns0| && dl == Nil && dr == Nil
    requires ns1[p] == BNode(st.key, Root(dl), Root(dr), if dt.Node? then par else Null)
    requires Ids(dl) !! Ids(dr) && p !in Ids(dl) + Ids(dr)
    requires forall i | i in Ids(dl) + Ids(dr) :: i < |ns0|
    requires forall i | 0 <= i < |ns0| && i != p :: ns1[i] == Stored(ns0, s, p)[i]
    requires Strip(lt) == Strip(st.left) && Distinct(lt)
    requires forall i | i in Ids(lt) :: i in Ids(dl) || |ns1| <= i < |ns2|
    requires ns2[p] == Link'(ns1[p], L, Root(lt))
    requires forall i | 0 <= i < |ns1| && i !in Ids(dl) && i != p :: ns2[i] == ns1[i]
    requires Strip(rt) == Strip(st.right) && Distinct(rt)
    requires forall i | i in Ids(rt) :: i in Ids(dr) || |ns2| <= i < |ns3|
    requires ns3[p] == Link'(ns2[p], R, Root(rt))
    requires forall i | 0 <= i < |ns2| && i !in Ids(dr) && i != p :: ns3[i] == ns2[i]
    requires Linked(lt, p, ns2) && Linked(rt, p, ns3)
    ensures var nt := Node(lt, p, st.key, rt);
      Strip(nt) == Strip(st) && Distinct(nt) &&
      Linked(nt, if dt.Node? then par else Null, ns3) &&
      (forall i | i in Ids(nt) :: i in Ids(dt) || |ns0| <= i < |ns3|) &&
      (forall i | 0 <= i < |ns0| && i !in Ids(dt) :: ns3[i] == Stored(ns0, s, p)[i])
  {
    var nt := Node(lt, p, st.key, rt);
    assert forall i | i in Ids(lt) :: i !in Ids(dr) && i != p && i < |ns2|;
    LinkedFrame(lt, p, ns2, ns3);
    assert dt.Node? ==> Ids(dt) == Ids(dl) + {p} + Ids(dr);
    assert Ids(lt) !! Ids(rt) && p !in Ids(lt) && p !in Ids(rt) by {
      forall i | i in Ids(lt) ensures i !in Ids(rt) && i != p {
      }
    }
    forall i | 0 <= i < |ns0| && i !in Ids(dt) ensures ns3[i] == Stored(ns0, s, p)[i] {
      assert i != p && i !in Ids(dl) && i !in Ids(dr);
    }
  }

  class BST {
    var root: Ptr
    var numElements: nat
    var nodes: seq<BNode>
    /** The tree reachable from `root`. */
    ghost var shape: Tree

    /** The links describe `shape`, a tree in BST order hanging below no parent. */
    ghost predicate Shaped()
      reads this
    {
      Linked(shape, Null, nodes) && Distinct(shape) && Ordered(shape) && root == Root(shape)
    }

    /** `Shaped`, and `numElements` counts the nodes. */
    ghost predicate Valid()
      reads this
    {
      Shaped() && numElements == |Order(shape)|
    }

    /** `it` is `end()` or refers to a node of this tree. */
    ghost predicate Points(it: Iterator)
      reads this
    {
      it.pNode == Null || it.pNode in Ids(shape)
    }

    /** `BST()`: the empty tree. */
    constructor ()
      ensures Valid() && shape == Nil && nodes == []
    {
      root := Null;
      numElements := 0;
      nodes := [];
      shape := Nil;
    }

    // -------------------------------------------------------------------
    // Single-cell updates of the arena
    // -------------------------------------------------------------------

    /** `new BNode(t)`: a fresh cell holding `t` with no links. */
    method NewNode(t: int) returns (p: nat)
      modifies this`nodes
      ensures p == |old(nodes)| && nodes == old(nodes) + [BNode(t, Null, Null, Null)]
      ensures Payload(nodes) == Payload(old(nodes)) + [t]
    {
      p := |nodes|;
      nodes := nodes + [BNode(t, Null, Null, Null)];
    }

    /**
     * `currentNode->pLeft = new BNode(t); currentNode->pLeft->pParent =
     * currentNode;` (or the same on the right): a fresh cell holding `t`
     * becomes the `d` child of `parent`.
     */
    method NewLeaf(parent: nat, d: Dir, t: int) returns (p: nat)
      requires parent < |nodes|
      modifies this`nodes
      ensures p == |old(nodes)|
      ensures nodes == (old(nodes) + [BNode(t, Null, Null, Null)])
                       [parent := Link'(old(nodes)[parent], d, p)][p := BNode(t, Null, Null, parent)]
      ensures Payload(nodes) == Payload(old(nodes)) + [t]
    {
      p := NewNode(t);
      if d == L {
        SetLeft(parent, p);
      } else {
        SetRight(parent, p);
      }
      SetParent(p, parent);
    }

    method SetLeft(n: nat, v: Ptr)
      requires n < |nodes|
      modifies this`nodes
      ensures nodes == old(nodes)[n := old(nodes)[n].(pLeft := v)]
      ensures Payload(nodes) == Payload(old(nodes))
    {
      nodes := nodes[n := nodes[n].(pLeft := v)];
    }

    method SetRight(n: nat, v: Ptr)
      requires n < |nodes|
      modifies this`nodes
      ensures nodes == old(nodes)[n := old(nodes)[n].(pRight := v)]
      ensures Payload(nodes) == Payload(old(nodes))
    {
      nodes := nodes[n := nodes[n].(pRight := v)];
    }

    method SetParent(n: nat, v: Ptr)
      requires n < |nodes|
      modifies this`nodes
      ensures nodes == old(nodes)[n := old(nodes)[n].(pParent := v)]
      ensures Payload(nodes) == Payload(old(nodes))
    {
      nodes := nodes[n := nodes[n].(pParent := v)];
    }

    /** `p->data = v`. */
    method SetData(n: nat, v: int)
      requires n < |nodes|
      modifies this`nodes
      ensures nodes == old(nodes)[n := old(nodes)[n].(data := v)]
    {
      nodes := nodes[n := nodes[n].(data := v)];
    }

    /** Reading the `BNode*&` that the slot `s` stands for. */
    function Target(s: Slot): Ptr
      reads this
      requires s.RootSlot? || s.owner < |nodes|
    {
      match s
      case RootSlot => root
      case LeftOf(o) => nodes[o].pLeft
      case RightOf(o) => nodes[o].pRight
    }

    /** Writing `v` through the `BNode*&` that the slot `s` stands for. */
    method Store(s: Slot, v: Ptr)
      requires s.RootSlot? || s.owner < |nodes|
      modifies this`root, this`nodes
      ensures nodes == Stored(old(nodes), s, v)
      ensures root == if s.RootSlot? then v else old(root)
      ensures Target(s) == v
      ensures Payload(nodes) == Payload(old(nodes))
    {
      match s
      case RootSlot => root := v;
      case LeftOf(o) => SetLeft(o, v);
      case RightOf(o) => SetRight(o, v);
    }

    /** `BNode::addLeft(pNode)`: hang `pNode` (possibly nullptr) as the left child of `n`. */
    method AddLeft(n: nat, pNode: Ptr)
      requires n < |nodes| && (pNode == Null || 0 <= pNode < |nodes|)
      modifies this`nodes
      ensures nodes == Hang(old(nodes), n, L, pNode)
      ensures Payload(nodes) == Payload(old(nodes))
    {
      if pNode != Null {
        SetParent(pNode, n);
      }
      SetLeft(n, pNode);
    }

    /** `BNode::addRight(pNode)`: hang `pNode` (possibly nullptr) as the right child of `n`. */
    method AddRight(n: nat, pNode: Ptr)
      requires n < |nodes| && (pNode == Null || 0 <= pNode < |nodes|)
      modifies this`nodes
      ensures nodes == Hang(old(nodes), n, R, pNode)
      ensures Payload(nodes) == Payload(old(nodes))
    {
      if pNode != Null {
        SetParent(pNode, n);
      }
      SetRight(n, pNode);
    }

    // -------------------------------------------------------------------
    // Status and access
    // -------------------------------------------------------------------

    /** `empty()`. */
    function Empty(): (b: bool)
      reads this
      requires Valid()
      ensures b <==> Contents(shape) == []
    {
      OrderContents(shape);
      numElements == 0
    }

    /** `size()`: the number of values a traversal yields. */
    function Size(): (n: nat)
      reads this
      requires Valid()
      ensures n == |Contents(shape)|
    {
      OrderContents(shape);
      numElements
    }

    /** `*it`: the value of the node `it` refers to, its place in the traversal. */
    function Deref(it: Iterator): (v: int)
      reads this
      requires Valid() && Points(it) && it.pNode != Null
      ensures v in Contents(shape)
      ensures forall k | 0 <= k < |Order(shape)| && k < |Contents(shape)| && Order(shape)[k] == it.pNode ::
        v == Contents(shape)[k]
    {
      LinkedBound(shape, Null, nodes);
      LinkedData(shape, Null, nodes);
      OrderContents(shape);
      nodes[it.pNode].data
    }

    /** `begin()`: the leftmost node, or `end()` for the empty tree. */
    method Begin() returns (it: Iterator)
      requires Valid()
      ensures it.pNode == if Order(shape) == [] then Null else Order(shape)[0]
    {
      var current := root;
      ghost var s := shape;
      ghost var sp: Ptr := Null;
      ExtremeOrder(shape, L);
      while current != Null && nodes[current].pLeft != Null
        invariant Linked(s, sp, nodes) && current == Root(s)
        invariant s.Node? ==> Extreme(s, L) == Extreme(shape, L)
        invariant s.Nil? ==> shape.Nil?
        decreases s
      {
        current := nodes[current].pLeft;
        sp := s.id;
        s := s.left;
      }
      it := Iterator(current);
    }

    /** `find(t)`: the first node holding `t` on the search path, or `end()`. */
    method Find(t: int) returns (it: Iterator)
      requires Valid()
      ensures it.pNode == Search(shape, t)
      ensures it.pNode == Null <==> t !in Contents(shape)
      ensures it.pNode != Null ==> it.pNode in Ids(shape) && Deref(it) == t
    {
      SearchSpec(shape, t);
      var current := root;
      ghost var s := shape;
      ghost var sp: Ptr := Null;
      while current != Null
        invariant Linked(s, sp, nodes) && current == Root(s)
        invariant Search(s, t) == Search(shape, t)
        decreases s
      {
        if nodes[current].data == t {
          it := Iterator(current);
          FoundHolds(it, t);
          return;
        } else if t < nodes[current].data {
          current := nodes[current].pLeft;
          sp := s.id;
          s := s.left;
        } else {
          current := nodes[current].pRight;
          sp := s.id;
          s := s.right;
        }
      }
      it := End();
    }

    /** A node that `Search` reports holds the value searched for. */
    lemma FoundHolds(it: Iterator, t: int)
      requires Valid() && it.pNode == Search(shape, t) && it.pNode != Null
      ensures it.pNode in Ids(shape) && Deref(it) == t
    {
      SearchSpec(shape, t);
      SearchHolds(shape, t);
      LinkedData(shape, Null, nodes);
      OrderContents(shape);
      OrderDistinct(shape);
    }

    // -------------------------------------------------------------------
    // Iterator movement
    // -------------------------------------------------------------------

    /**
     * The loop shared by prefix `++` (`d == R`) and `--` (`d == L`): go down
     * one step in direction `d` and then as far as possible the other way,
     * or, with no child that way, climb while coming up from direction `d`.
     */
    method Step(it: Iterator, d: Dir) returns (r: Iterator)
      requires Valid() && Points(it)
      ensures r.pNode == if it.pNode == Null then Null else Adjacent(shape, it.pNode, d)
    {
      if it.pNode == Null {
        return it;
      }
      ghost var x: nat := it.pNode;
      ghost var p := PathTo(shape, x);
      PathToSpec(shape, x);
      LinkedAt(shape, Null, nodes, p);
      SubDistinct(shape, p);
      AdjacentAtPath(shape, p, d);
      LinkChild(Sub(shape, p), ParentAt(shape, Null, p), nodes, d);
      ExtremeOrder(Child(Sub(shape, p), d), Flip(d));
      var pNode := it.pNode;
      if Link(nodes[pNode], d) != Null {
        pNode := Link(nodes[pNode], d);
        ghost var s := Child(Sub(shape, p), d);
        ghost var sp: Ptr := x;
        while Link(nodes[pNode], Flip(d)) != Null
          invariant Linked(s, sp, nodes) && s.Node? && pNode == s.id
          invariant Extreme(s, Flip(d)) == Adjacent(shape, x, d)
          decreases s
        {
          LinkChild(s, sp, nodes, Flip(d));
          pNode := Link(nodes[pNode], Flip(d));
          sp := s.id;
          s := Child(s, Flip(d));
        }
        LinkChild(s, sp, nodes, Flip(d));
      } else {
        var parent := nodes[pNode].pParent;
        ghost var q := p;
        ParentBound(q);
        while parent != Null && pNode == Link(nodes[parent], d)
          invariant Sub(shape, q).Node? && pNode == Sub(shape, q).id
          invariant parent == ParentAt(shape, Null, q)
          invariant parent == Null || 0 <= parent < |nodes|
          invariant Up(shape, q, d) == Up(shape, p, d)
          decreases |q|
        {
          ghost var q' := q[..|q| - 1];
          ClimbStep(q, d);
          ParentBound(q');
          pNode := parent;
          parent := nodes[parent].pParent;
          q := q';
        }
        ClimbExit(q, d, pNode, parent);
        pNode := parent;
      }
      r := Iterator(pNode);
    }

    /** The parent of a node of the tree is `Null` or another node of it. */
    lemma ParentBound(q: seq<Dir>)
      requires Shaped() && Sub(shape, q).Node?
      ensures ParentAt(shape, Null, q) == Null || 0 <= ParentAt(shape, Null, q) < |nodes|
    {
      if q != [] {
        var q' := q[..|q| - 1];
        var e := q[|q| - 1];
        assert q == q' + [e];
        SubSnoc(shape, q', e);
        ParentAtSnoc(shape, Null, q', e);
        SubIds(shape, q');
        LinkedBound(shape, Null, nodes);
      }
    }

    /** One iteration of the climb: the parent is reached from direction `d`. */
    lemma ClimbStep(q: seq<Dir>, d: Dir)
      requires Shaped() && Sub(shape, q).Node?
      requires 0 <= ParentAt(shape, Null, q) < |nodes|
      requires Sub(shape, q).id == Link(nodes[ParentAt(shape, Null, q)], d)
      ensures q != [] && q[..|q| - 1] + [d] == q
      ensures Sub(shape, q[..|q| - 1]).Node? && Sub(shape, q[..|q| - 1]).id == ParentAt(shape, Null, q)
      ensures nodes[ParentAt(shape, Null, q)].pParent == ParentAt(shape, Null, q[..|q| - 1])
      ensures Up(shape, q[..|q| - 1], d) == Up(shape, q, d)
    {
      var q' := q[..|q| - 1];
      var e := q[|q| - 1];
      assert q == q' + [e];
      SubSnoc(shape, q', e);
      ParentAtSnoc(shape, Null, q', e);
      LinkedAt(shape, Null, nodes, q');
      SubDistinct(shape, q');
      var u := Sub(shape, q');
      assert Child(u, e).id in Ids(Child(u, e));
      assert e == d;
      UpSnocSame(shape, q', d);
    }

    /** After the climb, `parent` is the neighbour in direction `d`. */
    lemma ClimbExit(q: seq<Dir>, d: Dir, pNode: Ptr, parent: Ptr)
      requires Shaped() && Sub(shape, q).Node? && pNode == Sub(shape, q).id
      requires parent == ParentAt(shape, Null, q)
      requires parent == Null || 0 <= parent < |nodes|
      requires !(parent != Null && pNode == Link(nodes[parent], d))
      ensures parent == Up(shape, q, d)
    {
      if q == [] {
      } else {
        var q' := q[..|q| - 1];
        var e := q[|q| - 1];
        assert q == q' + [e];
        SubSnoc(shape, q', e);
        ParentAtSnoc(shape, Null, q', e);
        LinkedAt(shape, Null, nodes, q');
        assert e == Flip(d);
        UpSnocTurn(shape, q', d);
      }
    }

    /** Prefix `++it`: the in-order successor, `end()` after the last node and for `end()`. */
    method Increment(it: Iterator) returns (r: Iterator)
      requires Valid() && Points(it)
      ensures r.pNode == if it.pNode == Null then Null else Adjacent(shape, it.pNode, R)
      ensures Points(r)
      ensures forall k | 0 <= k < |Order(shape)| && Order(shape)[k] == it.pNode ::
        r.pNode == if k + 1 < |Order(shape)| then Order(shape)[k + 1] else Null
    {
      r := Step(it, R);
      StepSpec(it, R);
    }

    /** Prefix `--it`: the in-order predecessor, `end()` before the first node and for `end()`. */
    method Decrement(it: Iterator) returns (r: Iterator)
      requires Valid() && Points(it)
      ensures r.pNode == if it.pNode == Null then Null else Adjacent(shape, it.pNode, L)
      ensures Points(r)
      ensures forall k | 0 <= k < |Order(shape)| && Order(shape)[k] == it.pNode ::
        r.pNode == if k > 0 then Order(shape)[k - 1] else Null
    {
      r := Step(it, L);
      StepSpec(it, L);
    }

    /** `Adjacent` read off the in-order sequence. */
    lemma StepSpec(it: Iterator, d: Dir)
      requires Valid() && Points(it)
      ensures it.pNode != Null ==> Adjacent(shape, it.pNode, d) == Null || Adjacent(shape, it.pNode, d) in Ids(shape)
      ensures forall k | 0 <= k < |Order(shape)| && Order(shape)[k] == it.pNode ::
        Adjacent(shape, it.pNode, d) == Neighbour(Order(shape), k, d)
    {
      OrderContents(shape);
      forall k | 0 <= k < |Order(shape)| && Order(shape)[k] == it.pNode
        ensures Adjacent(shape, it.pNode, d) == Neighbour(Order(shape), k, d)
      {
        AdjacentOrder(shape, k, d);
      }
      if it.pNode != Null {
        var k :| 0 <= k < |Order(shape)| && Order(shape)[k] == it.pNode;
        AdjacentOrder(shape, k, d);
      }
    }

    /** Prefix `++` always moves off a node, while postfix `it++` leaves it where it is. */
    lemma PostfixStaysPut(it: Iterator, d: Dir)
      requires Valid() && it.pNode in Ids(shape)
      ensures Adjacent(shape, it.pNode, d) != it.pNode
      ensures PostIncrement(it).pNode == PostDecrement(it).pNode == it.pNode
    {
      OrderContents(shape);
      OrderDistinct(shape);
      var k :| 0 <= k < |Order(shape)| && Order(shape)[k] == it.pNode;
      AdjacentOrder(shape, k, d);
    }

    // -------------------------------------------------------------------
    // Whole-tree operations
    // -------------------------------------------------------------------

    /**
     * `deleteBinaryTree(node)`: release the subtree `t` that the slot `s`
     * refers to, children first, and null the slot.  A released cell stays
     * in the arena, unreachable; the recursion nulls the child pointers of
     * released cells as it writes through them, and touches nothing else.
     */
    method DeleteBinaryTree(s: Slot, ghost t: Tree, ghost par: Ptr)
      requires s.RootSlot? || s.owner < |nodes|
      requires Linked(t, par, nodes) && Distinct(t) && Target(s) == Root(t)
      requires !s.RootSlot? ==> s.owner !in Ids(t)
      modifies this`root, this`nodes
      ensures |nodes| == |old(nodes)| && Target(s) == Null
      ensures root == if s.RootSlot? then Null else old(root)
      ensures forall i | 0 <= i < |nodes| && i !in Ids(t) :: nodes[i] == Stored(old(nodes), s, Null)[i]
      ensures Payload(nodes) == Payload(old(nodes))
      decreases t
    {
      var node := Target(s);
      if node == Null {
        return;
      }
      ghost var ns0 := nodes;
      LinkChild(t, par, nodes, L);
      LinkChild(t, par, nodes, R);
      DeleteBinaryTree(LeftOf(node), t.left, node);
      LinkedFrame(t.right, node, ns0, nodes);
      DeleteBinaryTree(RightOf(node), t.right, node);
      Store(s, Null);
    }

    /**
     * `assignBinaryTree(pDest, pSrc)`: make the subtree `dt` at slot `s` a copy
     * of the source subtree `st`, whose cells are `src`.  Where both have a
     * node the destination cell is reused and takes the source value; where
     * only the source has one a cell is allocated; a destination subtree with
     * no source counterpart is released.  The copy `nt` has the source's shape
     * and values and consists of cells of `dt` and fresh cells.  Its root
     * keeps the back-link of the cell it reuses (a fresh cell has none): the
     * caller links it.
     */
    method AssignBinaryTree(s: Slot, src: seq<BNode>, pSrc: Ptr, ghost st: Tree, ghost sp: Ptr, ghost dt: Tree, ghost par: Ptr)
      returns (ghost nt: Tree)
      requires s.RootSlot? || s.owner < |nodes|
      requires Linked(st, sp, src) && pSrc == Root(st)
      requires Linked(dt, par, nodes) && Distinct(dt) && Target(s) == Root(dt)
      requires !s.RootSlot? ==> s.owner !in Ids(dt)
      modifies this`root, this`nodes
      ensures |old(nodes)| <= |nodes| && Target(s) == Root(nt)
      ensures root == if s.RootSlot? then Root(nt) else old(root)
      ensures Strip(nt) == Strip(st) && Distinct(nt)
      ensures forall i | i in Ids(nt) :: i in Ids(dt) || |old(nodes)| <= i < |nodes|
      ensures Linked(nt, if dt.Node? then par else Null, nodes)
      ensures forall i | 0 <= i < |old(nodes)| && i !in Ids(dt) :: nodes[i] == Stored(old(nodes), s, Root(nt))[i]
      decreases st, 0
    {
      if pSrc == Null {
        DeleteBinaryTree(s, dt, par);
        nt := Nil;
        return;
      }
      LinkChild(st, sp, src, L);
      LinkChild(st, sp, src, R);
      ghost var ns0 := nodes;
      var pDest, dl, dr := TakeCell(s, src[pSrc].data, dt, par);
      ghost var ns1 := nodes;
      ghost var lt := AssignChild(pDest, L, src, src[pSrc].pLeft, st.left, pSrc, dl);
      ghost var ns2 := nodes;
      LinkedFrame(dr, pDest, ns1, ns2);
      ghost var rt := AssignChild(pDest, R, src, src[pSrc].pRight, st.right, pSrc, dr);
      AssembleCopy(ns0, ns1, ns2, nodes, s, pDest, st, dt, dl, dr, lt, rt, par);
      nt := Node(lt, pDest, st.key, rt);
    }

    /**
     * The first step of `assignBinaryTree` once the source has a node: reuse
     * the destination node `pDest` and overwrite its value, or allocate a node
     * with that value and store it in the slot.  `dl` and `dr` are the
     * subtrees still hanging below `pDest`.
     */
    method TakeCell(s: Slot, v: int, ghost dt: Tree, ghost par: Ptr) returns (pDest: nat, ghost dl: Tree, ghost dr: Tree)
      requires s.RootSlot? || s.owner < |nodes|
      requires Linked(dt, par, nodes) && Distinct(dt) && Target(s) == Root(dt)
      requires !s.RootSlot? ==> s.owner !in Ids(dt)
      modifies this`root, this`nodes
      ensures |old(nodes)| <= |nodes| && pDest < |nodes| && Target(s) == pDest
      ensures root == if s.RootSlot? then pDest else old(root)
      ensures dt.Node? ==> pDest == dt.id && dl == dt.left && dr == dt.right && |nodes| == |old(nodes)|
      ensures dt.Nil? ==> pDest == |old(nodes)| && dl == Nil && dr == Nil && |nodes| == |old(nodes)| + 1
      ensures nodes[pDest] == BNode(v, Root(dl), Root(dr), if dt.Node? then par else Null)
      ensures Linked(dl, pDest, nodes) && Linked(dr, pDest, nodes) && Distinct(dl) && Distinct(dr)
      ensures Ids(dl) !! Ids(dr) && pDest !in Ids(dl) + Ids(dr)
      ensures forall i | i in Ids(dl) + Ids(dr) :: i < |old(nodes)|
      ensures forall i | 0 <= i < |old(nodes)| && i != pDest :: nodes[i] == Stored(old(nodes), s, pDest)[i]
    {
      LinkedBound(dt, par, nodes);
      ghost var ns0 := nodes;
      dl, dr := Nil, Nil;
      if Target(s) == Null {
        pDest := NewNode(v);
        Store(s, pDest);
      } else {
        pDest := Target(s);
        LinkChild(dt, par, nodes, L);
        LinkChild(dt, par, nodes, R);
        dl, dr := dt.left, dt.right;
        assert Ids(dt) == Ids(dl) + {pDest} + Ids(dr);
        SetData(pDest, v);
        LinkedFrame(dl, pDest, ns0, nodes);
        LinkedFrame(dr, pDest, ns0, nodes);
      }
    }

    /**
     * One side of `assignBinaryTree`: copy `st` into the `d` child of the
     * cell `n`, whose current `d` subtree is `dc`, then point the copy's root
     * back at `n`.
     */
    method AssignChild(n: nat, d: Dir, src: seq<BNode>, pSrc: Ptr, ghost st: Tree, ghost sp: Ptr, ghost dc: Tree)
      returns (ghost ct: Tree)
      requires n < |nodes|
      requires Linked(st, sp, src) && pSrc == Root(st)
      requires Linked(dc, n, nodes) && Distinct(dc) && Link(nodes[n], d) == Root(dc) && n !in Ids(dc)
      modifies this`root, this`nodes
      ensures root == old(root) && |old(nodes)| <= |nodes|
      ensures Strip(ct) == Strip(st) && Distinct(ct)
      ensures forall i | i in Ids(ct) :: i in Ids(dc) || |old(nodes)| <= i < |nodes|
      ensures Linked(ct, n, nodes) && nodes[n] == Link'(old(nodes)[n], d, Root(ct))
      ensures forall i | 0 <= i < |old(nodes)| && i !in Ids(dc) && i != n :: nodes[i] == old(nodes)[i]
      decreases st, 1
    {
      var s := if d == L then LeftOf(n) else RightOf(n);
      ct := AssignBinaryTree(s, src, pSrc, st, sp, dc, n);
      ghost var ns1 := nodes;
      var c := Target(s);
      if c != Null {
        SetParent(c, n);
        LinkedReparent(ct, if dc.Node? then n else Null, n, ns1, nodes);
      }
    }

    /** `clear()`: release every node and empty the tree; clearing an empty tree changes nothing. */
    method Clear()
      requires Valid()
      modifies this`root, this`numElements, this`nodes, this`shape
      ensures Valid() && shape == Nil && numElements == 0 && root == Null
      ensures Payload(nodes) == Payload(old(nodes))
      ensures old(shape) == Nil ==> unchanged(this)
    {
      DeleteBinaryTree(RootSlot, shape, Null);
      numElements := 0;
      shape := Nil;
      if old(shape) == Nil {
        assert nodes == old(nodes);
      }
    }

    // -------------------------------------------------------------------
    // Insert
    // -------------------------------------------------------------------

    /**
     * `insert(t, keepUnique)`: descend from the root as the BST order says
     * and hang a new leaf; with `keepUnique`, stop at the first node on the
     * way that already holds `t` and return it with `false`.
     */
    method Insert(t: int, keepUnique: bool) returns (it: Iterator, inserted: bool)
      requires Valid()
      modifies this`root, this`numElements, this`nodes, this`shape
      ensures Valid()
      ensures inserted <==> !(keepUnique && t in Contents(old(shape)))
      ensures inserted ==> shape == InsertLeaf(old(shape), t, |old(nodes)|)
      ensures inserted ==> it.pNode == |old(nodes)| && numElements == old(numElements) + 1
      ensures inserted ==> multiset(Contents(shape)) == multiset(Contents(old(shape))) + multiset{t}
      ensures inserted ==> Payload(nodes) == Payload(old(nodes)) + [t]
      ensures old(shape) == Nil ==> inserted && root == it.pNode
      ensures !inserted ==> it.pNode == Search(old(shape), t) && unchanged(this)
      ensures it.pNode in Ids(shape) && Deref(it) == t
    {
      ghost var n := |nodes|;
      LinkedBound(shape, Null, nodes);
      SearchSpec(shape, t);
      if root == Null {
        var p := NewNode(t);
        root := p;
        numElements := 1;
        shape := Node(Nil, p, t, Nil);
        it := Iterator(root);
        inserted := true;
        LeafInserted(old(shape), old(nodes), t);
        return;
      }
      var currentNode := root;
      ghost var path: seq<Dir> := [];
      while currentNode != Null
        invariant unchanged(this)
        invariant Sub(shape, path).Node? && currentNode == Sub(shape, path).id
        invariant InsertLeaf(shape, t, n) == Replace(shape, path, InsertLeaf(Sub(shape, path), t, n))
        invariant keepUnique ==> Search(shape, t) == Search(Sub(shape, path), t)
        decreases Sub(shape, path)
      {
        ghost var sub := Sub(shape, path);
        LinkedAt(shape, Null, nodes, path);
        if keepUnique && t == nodes[currentNode].data {
          it := Iterator(currentNode);
          inserted := false;
          FoundHolds(it, t);
          return;
        }
        var d := if t < nodes[currentNode].data then L else R;
        LinkChild(sub, ParentAt(shape, Null, path), nodes, d);
        if Link(nodes[currentNode], d) != Null {
          SubSnoc(shape, path, d);
          ReplaceSnoc(shape, path, d, InsertLeaf(Child(sub, d), t, n));
          currentNode := Link(nodes[currentNode], d);
          path := path + [d];
        } else {
          var p := NewLeaf(currentNode, d, t);
          numElements := numElements + 1;
          AttachLeaf(shape, path, d, t, n, old(nodes), nodes);
          shape := InsertLeaf(shape, t, n);
          it := Iterator(p);
          inserted := true;
          LeafInserted(old(shape), old(nodes), t);
          return;
        }
      }
      it := End();
      inserted := false;
      assert false;
    }

    // -------------------------------------------------------------------
    // Erase
    // -------------------------------------------------------------------

    /**
     * `erase(it)`: remove the node `it` refers to and return the iterator to
     * its in-order successor; `erase(end())` changes nothing and returns
     * `end()`.  A node with an empty side is unhooked by `deleteNode`; a node
     * with two children is replaced by its successor, the leftmost node of
     * its right subtree, by relinking cells: no value is copied.  bst.h
     * dereferences the empty subtree of a childless root, so erasing the
     * only node of a tree is excluded.
     */
    method Erase(it: Iterator) returns (next: Iterator)
      requires Valid() && Points(it)
      requires it.pNode != Null ==> numElements != 1
      modifies this`root, this`numElements, this`nodes, this`shape
      ensures Valid() && Points(next)
      ensures Payload(nodes) == Payload(old(nodes))
      ensures it.pNode == Null ==> next == End() && unchanged(this)
      ensures it.pNode != Null ==>
        shape == BstOps.Erase(old(shape), it.pNode) && numElements == old(numElements) - 1 &&
        next.pNode == Adjacent(old(shape), it.pNode, R)
      ensures Dropped(old(shape), it.pNode, shape, next)
    {
      if it == End() {
        assert forall k | 0 <= k < |Order(shape)| :: Order(shape)[k] != Null;
        return End();
      }
      var x: nat := it.pNode;
      ghost var s0 := shape;
      ParentCell(s0, x, nodes);
      ghost var u := Sub(s0, PathTo(s0, x));
      LinkChild(u, nodes[x].pParent, nodes, L);
      LinkChild(u, nodes[x].pParent, nodes, R);
      OrderContents(s0);
      if x == root {
        assert u == s0 && Order(s0) == Order(u.left) + [x] + Order(u.right);
      }
      if nodes[x].pLeft == Null {
        next := Increment(it);
        DeleteNode(x, true);
      } else if nodes[x].pRight == Null {
        next := Increment(it);
        DeleteNode(x, false);
      } else {
        var pIOS := ReplaceBySuccessor(x);
        next := Iterator(pIOS);
      }
      numElements := numElements - 1;
      Erased(s0, x, next);
    }

    /**
     * Lines 400-427 of `erase`, for a node `x` with two children: find its
     * successor `pIOS`, the leftmost node of its right subtree, and move it
     * into `x`'s place.
     */
    method ReplaceBySuccessor(x: nat) returns (pIOS: nat)
      requires Shaped() && x in Ids(shape) && x < |nodes|
      requires nodes[x].pLeft != Null && nodes[x].pRight != Null
      modifies this`root, this`nodes, this`shape
      ensures Shaped() && shape == BstOps.Erase(old(shape), x)
      ensures pIOS == Adjacent(old(shape), x, R)
      ensures Payload(nodes) == Payload(old(nodes))
    {
      ghost var s0 := shape;
      ghost var ns0 := nodes;
      ParentCell(s0, x, ns0);
      ghost var u := Sub(s0, PathTo(s0, x));
      ghost var px := ns0[x].pParent;
      LinkChild(u, px, ns0, L);
      LinkChild(u, px, ns0, R);
      ghost var rp;
      pIOS, rp := LeftmostBelow(x, u.right);
      SuccessorSpliced(s0, x, rp, ns0);
      SuccessorFound(s0, x, rp);
      EraseInvariants(s0, x);
      PromoteSuccessor(x, pIOS, u, px, rp);
      ghost var ns2 := nodes;
      assert px != Null ==> ns2[px] == ns0[px];
      assert pIOS in Ids(u.right) && pIOS < |ns0| && pIOS != x by {
        SubIds(u.right, rp);
        LinkedBound(u, px, ns0);
      }
      assert px == Null || (0 <= px < |ns2| && px != pIOS && (ns2[px].pLeft == x <==> ns2[px].pRight != x));
      TakePlace(x, pIOS);
      assert nodes == Hang(ns2, px, if 0 <= px < |ns2| && ns2[px].pLeft == x then L else R, pIOS);
      if root == x {
        root := pIOS;
      }
      shape := BstOps.Erase(s0, x);
    }

    /**
     * Lines 400-402 of `erase`: from the right child `r` of `x`, follow left
     * links while there are any.  The node reached, `pIOS`, is the leftmost
     * node of `r`, at the end of the all-left path `rp`.
     */
    method LeftmostBelow(x: nat, ghost r: Tree) returns (pIOS: nat, ghost rp: seq<Dir>)
      requires x < |nodes| && r.Node? && nodes[x].pRight == r.id && Linked(r, x, nodes)
      ensures pIOS in Ids(r) && pIOS < |nodes| && nodes[pIOS].pLeft == Null
      ensures AllLeft(rp) && Sub(r, rp).Node? && Sub(r, rp).left.Nil? && pIOS == Sub(r, rp).id
    {
      pIOS := nodes[x].pRight;
      rp := [];
      while nodes[pIOS].pLeft != Null
        invariant Sub(r, rp).Node? && pIOS == Sub(r, rp).id && AllLeft(rp)
        invariant Linked(Sub(r, rp), ParentAt(r, x, rp), nodes)
        decreases Sub(r, rp)
      {
        LinkChild(Sub(r, rp), ParentAt(r, x, rp), nodes, L);
        SubSnoc(r, rp, L);
        ParentAtSnoc(r, x, rp, L);
        pIOS := nodes[pIOS].pLeft;
        rp := rp + [L];
      }
      LinkChild(Sub(r, rp), ParentAt(r, x, rp), nodes, L);
      SubIds(r, rp);
    }

    /**
     * Lines 404-416 of `erase`: the successor `pIOS` of the node `x` adopts
     * `x`'s left subtree; unless it is `x`'s right child, its parent adopts
     * its right subtree and it adopts `x`'s right subtree.  Neither `x`'s
     * cell nor anything outside `x`'s subtree changes.
     */
    method PromoteSuccessor(x: nat, pIOS: nat, ghost u: Tree, ghost px: Ptr, ghost rp: seq<Dir>)
      requires Linked(u, px, nodes) && Distinct(u) && u.Node? && u.left.Node? && u.right.Node?
      requires u.id == x && AllLeft(rp) && Sub(u.right, rp).Node? && Sub(u.right, rp).left.Nil?
      requires pIOS == Sub(u.right, rp).id
      requires px == Null || (0 <= px < |nodes| && px !in Ids(u))
      modifies this`nodes
      ensures nodes == Promoted(old(nodes), u, rp)
      ensures x < |nodes| && nodes[x] == old(nodes)[x]
      ensures px != Null ==> nodes[px] == old(nodes)[px]
      ensures Payload(nodes) == Payload(old(nodes))
    {
      SuccessorCells(u, px, rp, nodes);
      PromotedKeeps(u, px, rp, nodes);
      AdoptLeft(x, pIOS);
      if nodes[x].pRight != pIOS {
        Detach(x, pIOS);
      }
    }

    /** Lines 404-406 of `erase`: `pIOS` adopts the left subtree of `x`. */
    method AdoptLeft(x: nat, pIOS: nat)
      requires x < |nodes| && pIOS < |nodes| && x != pIOS
      requires var lid := nodes[x].pLeft; lid == Null || (0 <= lid < |nodes| && lid != x && lid != pIOS)
      modifies this`nodes
      ensures nodes == Hang(old(nodes), pIOS, L, old(nodes)[x].pLeft)
      ensures Payload(nodes) == Payload(old(nodes))
    {
      SetLeft(pIOS, nodes[x].pLeft);
      if nodes[x].pLeft != Null {
        SetParent(nodes[x].pLeft, pIOS);
      }
    }

    /**
     * Lines 408-415 of `erase`, when `pIOS` lies below the right child of
     * `x`: its parent adopts its right subtree, and it adopts the right
     * subtree of `x`.
     */
    method Detach(x: nat, pIOS: nat)
      requires x < |nodes| && pIOS < |nodes| && x != pIOS
      requires var y := nodes[pIOS].pParent; var mr := nodes[pIOS].pRight; var rid := nodes[x].pRight;
        0 <= y < |nodes| && 0 <= rid < |nodes| && (mr == Null || 0 <= mr < |nodes|) &&
        y != pIOS && mr != pIOS && rid != pIOS && mr != y && mr != rid &&
        x != y && x != mr && x != rid
      modifies this`nodes
      ensures var y := old(nodes)[pIOS].pParent; var mr := old(nodes)[pIOS].pRight;
        nodes == Hang(Hang(old(nodes), y, L, mr), pIOS, R, old(nodes)[x].pRight)
      ensures Payload(nodes) == Payload(old(nodes))
    {
      ghost var n0, y, mr := nodes, nodes[pIOS].pParent, nodes[pIOS].pRight;
      if nodes[pIOS].pRight != Null {
        SetParent(nodes[pIOS].pRight, nodes[pIOS].pParent);
      }
      SetLeft(nodes[pIOS].pParent, nodes[pIOS].pRight);
      ghost var n1 := nodes;
      assert n1 == Hang(n0, y, L, mr);
      SetRight(pIOS, nodes[x].pRight);
      SetParent(nodes[x].pRight, pIOS);
      assert nodes == n1[n0[x].pRight := n1[n0[x].pRight].(pParent := pIOS)][pIOS := Link'(n1[pIOS], R, n0[x].pRight)];
    }

    /**
     * Lines 418-422 of `erase`: `pIOS` points up at `x`'s parent, and the
     * parent's pointer that referred to `x` now refers to `pIOS`.
     */
    method TakePlace(x: nat, pIOS: nat)
      requires x < |nodes| && pIOS < |nodes| && pIOS != x
      requires var px := nodes[x].pParent;
        px == Null || (0 <= px < |nodes| && px != pIOS && (nodes[px].pLeft == x <==> nodes[px].pRight != x))
      modifies this`nodes
      ensures var px := old(nodes)[x].pParent;
        nodes == Hang(old(nodes), px, if 0 <= px < |old(nodes)| && old(nodes)[px].pLeft == x then L else R, pIOS)
      ensures Payload(nodes) == Payload(old(nodes))
    {
      SetParent(pIOS, nodes[x].pParent);
      if nodes[x].pParent != Null && nodes[nodes[x].pParent].pLeft == x {
        SetLeft(nodes[x].pParent, pIOS);
      }
      if nodes[x].pParent != Null && nodes[nodes[x].pParent].pRight == x {
        SetRight(nodes[x].pParent, pIOS);
      }
    }

    /**
     * `deleteNode(pDelete, right)`: unhook the node `pDelete`, whose other
     * child is empty, and hang its `right` (or left) subtree where it was.
     * The root has no parent to hang it from: there the kept subtree becomes
     * the tree, and bst.h dereferences it unguarded, so it must not be empty.
     */
    method DeleteNode(pDelete: nat, right: bool)
      requires Shaped() && pDelete in Ids(shape) && pDelete < |nodes|
      requires Link(nodes[pDelete], if right then L else R) == Null
      requires pDelete == root ==> Link(nodes[pDelete], if right then R else L) != Null
      modifies this`root, this`nodes, this`shape
      ensures Shaped() && shape == BstOps.Erase(old(shape), pDelete)
      ensures Payload(nodes) == Payload(old(nodes))
    {
      ghost var s0 := shape;
      ghost var ns0 := nodes;
      ghost var p := PathTo(s0, pDelete);
      PathToSpec(s0, pDelete);
      ErasePath(s0, pDelete);
      EraseInvariants(s0, pDelete);
      ghost var u := Sub(s0, p);
      LinkedAt(s0, Null, ns0, p);
      LinkChild(u, ParentAt(s0, Null, p), ns0, L);
      LinkChild(u, ParentAt(s0, Null, p), ns0, R);
      SubDistinct(s0, p);
      ghost var kept := if right then u.right else u.left;
      assert EraseRoot(u) == kept;
      LinkedBound(kept, pDelete, ns0);

      var pNext := if right then nodes[pDelete].pRight else nodes[pDelete].pLeft;
      if pDelete != root {
        ghost var q := p[..|p| - 1];
        ghost var e := p[|p| - 1];
        assert p == q + [e];
        SubSnoc(s0, q, e);
        ParentAtSnoc(s0, Null, q, e);
        LinkedAt(s0, Null, ns0, q);
        var pParent := nodes[pDelete].pParent;
        ghost var side := if nodes[pParent].pLeft == pDelete then L else R;
        if nodes[pParent].pLeft == pDelete {
          SetLeft(pParent, Null);
          AddLeft(pParent, pNext);
        } else {
          SetRight(pParent, Null);
          AddRight(pParent, pNext);
        }
        assert nodes == Hang(ns0[pParent := Link'(ns0[pParent], side, Null)], pParent, side, pNext);
        Unhook(s0, q, e, kept, ns0, nodes);
        assert BstOps.Erase(s0, pDelete) == Replace(s0, q + [e], kept);
        assert Root(Replace(s0, q + [e], kept)) == root;
      } else {
        root := pNext;
        SetParent(pNext, Null);
        LinkedReparent(kept, pDelete, Null, ns0, nodes);
        assert BstOps.Erase(s0, pDelete) == kept;
      }
      shape := BstOps.Erase(s0, pDelete);
    }

    /** After the node `x` of `s0` was erased, the tree is valid again and the traversal lost exactly `x`. */
    lemma Erased(s0: Tree, x: nat, next: Iterator)
      requires Distinct(s0) && Ordered(s0) && x in Ids(s0)
      requires shape == BstOps.Erase(s0, x) && Linked(shape, Null, nodes) && root == Root(shape)
      requires numElements + 1 == |Order(s0)| && next.pNode == Adjacent(s0, x, R)
      ensures Valid() && Points(next)
      ensures Dropped(s0, x, shape, next)
    {
      EraseInvariants(s0, x);
      assert x in Order(s0) && |Contents(s0)| == |Order(s0)| by {
        OrderContents(s0);
      }
      forall k | 0 <= k < |Order(s0)| && k < |Contents(s0)| && Order(s0)[k] == x
        ensures Order(shape) == Order(s0)[..k] + Order(s0)[k + 1..]
        ensures Contents(shape) == Contents(s0)[..k] + Contents(s0)[k + 1..]
        ensures next.pNode == if k + 1 < |Order(s0)| then Order(s0)[k + 1] else Null
      {
        EraseOrder(s0, k);
        EraseContents(s0, k);
        AdjacentOrder(s0, k, R);
      }
      var k :| 0 <= k < |Order(s0)| && Order(s0)[k] == x;
      EraseOrder(s0, k);
      AdjacentOrder(s0, k, R);
      if k + 1 < |Order(s0)| {
        assert Order(s0)[k + 1] == Order(shape)[k];
        assert next.pNode in Ids(shape) by {
          OrderContents(shape);
        }
      }
    }

    /** After a leaf holding `t` was hung at the fresh address `|ns0|`, the tree is valid again. */
    lemma LeafInserted(s0: Tree, ns0: seq<BNode>, t: int)
      requires Linked(s0, Null, ns0) && Distinct(s0) && Ordered(s0)
      requires shape == InsertLeaf(s0, t, |ns0|) && Linked(shape, Null, nodes)
      requires root == Root(shape) && numElements == |Order(s0)| + 1
      requires |nodes| == |ns0| + 1 && nodes[|ns0|].data == t
      ensures Valid()
      ensures multiset(Contents(shape)) == multiset(Contents(s0)) + multiset{t}
      ensures |ns0| in Ids(shape) && Deref(Iterator(|ns0|)) == t
    {
      LinkedBound(s0, Null, ns0);
      InsertLeafFacts(s0, t, |ns0|);
      InsertLeafIds(s0, t, |ns0|);
      LinkedData(shape, Null, nodes);
      OrderContents(shape);
    }

    // -------------------------------------------------------------------
    // Assignment, swap and the constructors built on them
    // -------------------------------------------------------------------

    /**
     * `operator=(const BST&)`: copy `rhs` node by node into this tree,
     * reusing this tree's nodes where the shapes overlap, and take its size.
     * The copy has the shape and the values of `rhs`, with its own links.
     */
    method CopyAssign(rhs: BST)
      requires Valid() && rhs.Valid()
      modifies this`root, this`numElements, this`nodes, this`shape
      ensures Valid() && Strip(shape) == Strip(old(rhs.shape)) && numElements == old(rhs.numElements)
      ensures Contents(shape) == Contents(old(rhs.shape))
    {
      var src, pSrc, n := rhs.nodes, rhs.root, rhs.numElements;
      ghost var st := rhs.shape;
      ghost var nt := AssignBinaryTree(RootSlot, src, pSrc, st, Null, shape, Null);
      numElements := n;
      shape := nt;
      StripSame(nt, st);
    }

    /** `BST(const BST&)`: an empty tree, then `*this = rhs`. */
    constructor Copy(rhs: BST)
      requires rhs.Valid()
      ensures Valid() && Strip(shape) == Strip(rhs.shape) && numElements == rhs.numElements
      ensures Contents(shape) == Contents(rhs.shape)
    {
      root := Null;
      numElements := 0;
      nodes := [];
      shape := Nil;
      new;
      CopyAssign(rhs);
    }

    /** `swap(rhs)`: exchange the two trees. */
    method Swap(rhs: BST)
      requires Valid() && rhs.Valid()
      modifies this`root, this`numElements, this`nodes, this`shape
      modifies rhs`root, rhs`numElements, rhs`nodes, rhs`shape
      ensures Valid() && rhs.Valid()
      ensures root == old(rhs.root) && numElements == old(rhs.numElements)
      ensures nodes == old(rhs.nodes) && shape == old(rhs.shape)
      ensures rhs.root == old(root) && rhs.numElements == old(numElements)
      ensures rhs.nodes == old(nodes) && rhs.shape == old(shape)
    {
      var r, n, ns := root, numElements, nodes;
      ghost var t := shape;
      root, numElements, nodes, shape := rhs.root, rhs.numElements, rhs.nodes, rhs.shape;
      rhs.root, rhs.numElements, rhs.nodes, rhs.shape := r, n, ns, t;
    }

    /**
     * `operator=(BST&&)`: clear this tree, then swap with `rhs`.  This tree
     * ends up with what `rhs` held and `rhs` ends up empty; moving a tree
     * into itself empties it.
     */
    method MoveAssign(rhs: BST)
      requires Valid() && rhs.Valid()
      modifies this`root, this`numElements, this`nodes, this`shape
      modifies rhs`root, rhs`numElements, rhs`nodes, rhs`shape
      ensures Valid() && rhs.Valid()
      ensures rhs.shape == Nil && rhs.numElements == 0 && rhs.root == Null
      ensures rhs != this ==> shape == old(rhs.shape) && nodes == old(rhs.nodes)
      ensures rhs != this ==> root == old(rhs.root) && numElements == old(rhs.numElements)
    {
      Clear();
      Swap(rhs);
    }

    /** `BST(BST&&)`: an empty tree, then `*this = std::move(rhs)`. */
    constructor Move(rhs: BST)
      requires rhs.Valid()
      modifies rhs`root, rhs`numElements, rhs`nodes, rhs`shape
      ensures Valid() && rhs.Valid()
      ensures shape == old(rhs.shape) && numElements == old(rhs.numElements)
      ensures rhs.shape == Nil && rhs.numElements == 0 && rhs.root == Null
    {
      root := Null;
      numElements := 0;
      nodes := [];
      shape := Nil;
      new;
      MoveAssign(rhs);
    }

    /**
     * `operator=(initializer_list)`: clear, then insert the values one by
     * one, keeping them unique.  The tree then holds each listed value
     * exactly once.
     */
    method AssignList(il: seq<int>)
      requires Valid()
      modifies this`root, this`numElements, this`nodes, this`shape
      ensures Valid()
      ensures forall v :: multiset(Contents(shape))[v] == if v in il then 1 else 0
    {
      Clear();
      for i := 0 to |il|
        invariant Valid()
        invariant forall v :: multiset(Contents(shape))[v] == if v in il[..i] then 1 else 0
      {
        ghost var c0 := Contents(shape);
        var _, inserted := Insert(il[i], true);
        UniqueStep(c0, Contents(shape), il, i, inserted);
      }
      assert il[..|il|] == il;
    }

    /** `BST(initializer_list)`: an empty tree, then `*this = il`. */
    constructor FromList(il: seq<int>)
      ensures Valid()
      ensures forall v :: multiset(Contents(shape))[v] == if v in il then 1 else 0
    {
      root := Null;
      numElements := 0;
      nodes := [];
      shape := Nil;
      new;
      AssignList(il);
    }
  }
}
