/**
 * What the tree operations of bst.h do to the abstract tree, as functions,
 * and the properties that make them a sorted container: search finds exactly
 * the stored values, insertion adds one value, erase removes one node from
 * the in-order sequence, and the iterator steps are the in-order neighbours.
 */
module BstOps {
  import opened BstTree

  /** A traversal yields a non-decreasing sequence. */
  predicate Sorted(s: seq<int>) {
    forall a, b | 0 <= a < b < |s| :: s[a] <= s[b]
  }

  // ---------------------------------------------------------------------
  // Iteration: begin(), ++ and --
  // ---------------------------------------------------------------------

  /** The node reached by following `d` links from the root: leftmost for `L`, rightmost for `R`. */
  function Extreme(t: Tree, d: Dir): Ptr {
    match t
    case Nil => Null
    case Node(_, i, _, _) => if Child(t, d).Nil? then i else Extreme(Child(t, d), d)
  }

  /** The in-order neighbour of position `k` of `o`: the next one for `R`, the previous one for `L`. */
  function Neighbour(o: seq<nat>, k: int, d: Dir): Ptr {
    if d == R then (if 0 <= k && k + 1 < |o| then o[k + 1] else Null)
    else (if 0 < k <= |o| then o[k - 1] else Null)
  }

  /**
   * The in-order successor (`d == R`) or predecessor (`d == L`) of the node
   * `x`, defined by the tree's shape: the extreme node of the `d` subtree,
   * else the nearest ancestor that `x` lies on the other side of.
   */
  function Adjacent(t: Tree, x: nat, d: Dir): Ptr {
    match t
    case Nil => Null
    case Node(_, i, _, _) =>
      if x == i then Extreme(Child(t, d), Flip(d))
      else if x in Ids(Child(t, Flip(d))) then
        var s := Adjacent(Child(t, Flip(d)), x, d);
        if s == Null then i else s
      else Adjacent(Child(t, d), x, d)
  }

  /**
   * The nearest proper ancestor of the node at path `p` from which `p` turns
   * away from `d`: what the iterator's parent climb reaches.
   */
  function Up(t: Tree, p: seq<Dir>, d: Dir): Ptr
    decreases |p|
  {
    if p == [] then Null
    else match t
      case Nil => Null
      case Node(_, i, _, _) =>
        var u := Up(Child(t, p[0]), p[1..], d);
        if u != Null then u else if p[0] == Flip(d) then i else Null
  }

  /** begin() of an empty tree is end(); otherwise the leftmost node is the first in order (and `R` the last). */
  lemma {:induction false} ExtremeOrder(t: Tree, d: Dir)
    ensures t.Nil? ==> Extreme(t, d) == Null
    ensures t.Node? ==>
      |Order(t)| > 0 && Extreme(t, d) == (if d == L then Order(t)[0] else Order(t)[|Order(t)| - 1])
  {
    match t
    case Nil =>
    case Node(l, _, _, r) =>
      ExtremeOrder(Child(t, d), d);
  }

  /** Positions in `a + [y] + b`, left of `y`, at `y`, right of `y`. */
  lemma Split3<X>(a: seq<X>, y: X, b: seq<X>, k: int)
    requires 0 <= k < |a| + 1 + |b|
    ensures k < |a| ==> (a + [y] + b)[k] == a[k]
    ensures k == |a| ==> (a + [y] + b)[k] == y
    ensures k > |a| ==> (a + [y] + b)[k] == b[k - |a| - 1]
  {
  }

  /** The shape-defined step is the in-order neighbour: `++` and `--` walk the sorted order. */
  lemma {:induction false} AdjacentOrder(t: Tree, k: nat, d: Dir)
    requires Distinct(t) && k < |Order(t)|
    ensures Adjacent(t, Order(t)[k], d) == Neighbour(Order(t), k, d)
  {
    match t
    case Node(l, i, _, r) =>
      var ol, or := Order(l), Order(r);
      var o := Order(t);
      var nl := |ol|;
      var x := o[k];
      assert o == ol + [i] + or;
      Split3(ol, i, or, k);
      if k < nl {
        assert x in Ids(l) && x != i && x !in Ids(r) by {
          OrderContents(l);
        }
        AdjacentOrder(l, k, d);
        if d == R {
          Split3(ol, i, or, k + 1);
          assert Adjacent(t, x, d) == (if Adjacent(l, x, d) == Null then i else Adjacent(l, x, d));
        } else {
          if k > 0 {
            Split3(ol, i, or, k - 1);
          }
          assert Adjacent(t, x, d) == Adjacent(l, x, d);
        }
      } else if k == nl {
        assert Adjacent(t, x, d) == Neighbour(o, k, d) by {
          OrderContents(l);
          if k + 1 < |o| {
            Split3(ol, i, or, k + 1);
          }
          if k > 0 {
            Split3(ol, i, or, k - 1);
          }
          ExtremeOrder(Child(t, d), Flip(d));
        }
      } else {
        var m := k - nl - 1;
        assert x == or[m];
        assert x in Ids(r) && x != i && x !in Ids(l) by {
          OrderContents(r);
        }
        AdjacentOrder(r, m, d);
        if d == L {
          Split3(ol, i, or, k - 1);
          assert Adjacent(t, x, d) == (if Adjacent(r, x, d) == Null then i else Adjacent(r, x, d));
        } else {
          if k + 1 < |o| {
            Split3(ol, i, or, k + 1);
          }
          assert Adjacent(t, x, d) == Adjacent(r, x, d);
        }
      }
  }



  /** The step from the node at path `p`: down into the `d` subtree if there is one, else up the path. */
  lemma {:induction false} AdjacentAtPath(t: Tree, p: seq<Dir>, d: Dir)
    requires Distinct(t) && Sub(t, p).Node?
    ensures Adjacent(t, Sub(t, p).id, d) ==
      var e := Extreme(Child(Sub(t, p), d), Flip(d));
      if e != Null then e else Up(t, p, d)
    decreases |p|
  {
    if p != [] {
      var c := Child(t, p[0]);
      var x := Sub(t, p).id;
      SubInChild(t, p);
      AdjacentAtPath(c, p[1..], d);
      assert x != t.id;
      if p[0] == d {
        assert x !in Ids(Child(t, Flip(d)));
      }
    }
  }

  /** Climbing from a `d` child to its parent does not change where the climb ends. */
  lemma {:induction false} UpSnocSame(t: Tree, p: seq<Dir>, d: Dir)
    requires Sub(t, p).Node?
    ensures Up(t, p + [d], d) == Up(t, p, d)
    decreases |p|
  {
    if p == [] {
      assert [d][1..] == [];
    } else {
      assert (p + [d])[1..] == p[1..] + [d];
      UpSnocSame(Child(t, p[0]), p[1..], d);
    }
  }

  /** Arriving at a parent from its other side ends the climb there. */
  lemma {:induction false} UpSnocTurn(t: Tree, p: seq<Dir>, d: Dir)
    requires Sub(t, p).Node?
    ensures Up(t, p + [Flip(d)], d) == Sub(t, p).id
    decreases |p|
  {
    if p == [] {
      assert [Flip(d)][1..] == [];
    } else {
      assert (p + [Flip(d)])[1..] == p[1..] + [Flip(d)];
      UpSnocTurn(Child(t, p[0]), p[1..], d);
    }
  }

  /** Iterator symmetry: stepping forward then back (or back then forward) returns to the same node. */
  lemma AdjacentInverse(t: Tree, x: nat, d: Dir)
    requires Distinct(t) && x in Ids(t) && Adjacent(t, x, d) != Null
    ensures Adjacent(t, x, d) in Ids(t) && Adjacent(t, Adjacent(t, x, d), Flip(d)) == x
  {
    var o := Order(t);
    OrderContents(t);
    OrderDistinct(t);
    var k :| 0 <= k < |o| && o[k] == x;
    AdjacentOrder(t, k, d);
    var k' := if d == R then k + 1 else k - 1;
    AdjacentOrder(t, k', Flip(d));
  }

  // ---------------------------------------------------------------------
  // find
  // ---------------------------------------------------------------------

  /** The node find() stops at: the first node on the search path whose value equals `x`. */
  function Search(t: Tree, x: int): Ptr {
    match t
    case Nil => Null
    case Node(l, i, k, r) =>
      if k == x then i else if x < k then Search(l, x) else Search(r, x)
  }

  /** In an ordered tree the search path meets `x` exactly when `x` is stored. */
  lemma {:induction false} SearchSpec(t: Tree, x: int)
    requires Ordered(t)
    ensures Search(t, x) == Null <==> x !in Contents(t)
    ensures Search(t, x) != Null ==> Search(t, x) in Ids(t)
  {
    match t
    case Nil =>
    case Node(l, i, k, r) =>
      SearchSpec(l, x);
      SearchSpec(r, x);
  }

  /** The node the search stops at holds `x`: its place in-order carries `x` in the traversal. */
  lemma {:induction false} SearchHolds(t: Tree, x: int)
    requires Search(t, x) != Null
    ensures exists k :: 0 <= k < |Order(t)| && k < |Contents(t)| && Order(t)[k] == Search(t, x) && Contents(t)[k] == x
  {
    match t
    case Node(l, i, key, r) =>
      OrderContents(l);
      var nl := |Order(l)|;
      if key == x {
        assert Order(t)[nl] == i && Contents(t)[nl] == x;
      } else if x < key {
        SearchHolds(l, x);
        var k :| 0 <= k < |Order(l)| && k < |Contents(l)| && Order(l)[k] == Search(l, x) && Contents(l)[k] == x;
        assert Order(t)[k] == Order(l)[k] && Contents(t)[k] == Contents(l)[k];
      } else {
        SearchHolds(r, x);
        var k :| 0 <= k < |Order(r)| && k < |Contents(r)| && Order(r)[k] == Search(r, x) && Contents(r)[k] == x;
        assert Order(t)[nl + 1 + k] == Order(r)[k] && Contents(t)[nl + 1 + k] == Contents(r)[k];
      }
  }

  // ---------------------------------------------------------------------
  // insert
  // ---------------------------------------------------------------------

  /** insert() without a match: a new leaf `n` holding `x`, left of larger values, right otherwise. */
  function InsertLeaf(t: Tree, x: int, n: nat): Tree {
    match t
    case Nil => Node(Nil, n, x, Nil)
    case Node(l, i, k, r) =>
      if x < k then Node(InsertLeaf(l, x, n), i, k, r) else Node(l, i, k, InsertLeaf(r, x, n))
  }

  /** Insertion adds exactly one copy of `x`. */
  lemma {:induction false} InsertLeafContents(t: Tree, x: int, n: nat)
    ensures multiset(Contents(InsertLeaf(t, x, n))) == multiset(Contents(t)) + multiset{x}
  {
    match t
    case Nil =>
    case Node(l, i, k, r) =>
      var mk, ml, mr := multiset{k}, multiset(Contents(l)), multiset(Contents(r));
      assert multiset(Contents(t)) == ml + mk + mr;
      if x < k {
        InsertLeafContents(l, x, n);
        assert multiset(Contents(InsertLeaf(t, x, n))) == multiset(Contents(InsertLeaf(l, x, n))) + mk + mr;
      } else {
        InsertLeafContents(r, x, n);
        assert multiset(Contents(InsertLeaf(t, x, n))) == ml + mk + multiset(Contents(InsertLeaf(r, x, n)));
      }
  }

  /** Insertion adds exactly one node, at the address `n`. */
  lemma {:induction false} InsertLeafIds(t: Tree, x: int, n: nat)
    ensures Ids(InsertLeaf(t, x, n)) == Ids(t) + {n}
  {
    match t
    case Nil =>
    case Node(l, i, k, r) =>
      InsertLeafIds(l, x, n);
      InsertLeafIds(r, x, n);
  }

  /** Insertion adds no value but `x`. */
  lemma {:induction false} InsertLeafValues(t: Tree, x: int, n: nat)
    ensures forall v | v in Contents(InsertLeaf(t, x, n)) :: v in Contents(t) || v == x
  {
    match t
    case Nil =>
    case Node(l, i, k, r) =>
      InsertLeafValues(l, x, n);
      InsertLeafValues(r, x, n);
  }

  /** Insertion keeps the BST order: left < node <= right, with an equal value sent right. */
  lemma {:induction false} InsertLeafOrdered(t: Tree, x: int, n: nat)
    requires Ordered(t)
    ensures Ordered(InsertLeaf(t, x, n))
  {
    match t
    case Nil =>
    case Node(l, i, k, r) =>
      if x < k {
        InsertLeafOrdered(l, x, n);
        InsertLeafValues(l, x, n);
      } else {
        InsertLeafOrdered(r, x, n);
        InsertLeafValues(r, x, n);
      }
  }

  /** A fresh address keeps the addresses distinct. */
  lemma {:induction false} InsertLeafDistinct(t: Tree, x: int, n: nat)
    requires Distinct(t) && n !in Ids(t)
    ensures Distinct(InsertLeaf(t, x, n))
  {
    match t
    case Nil =>
    case Node(l, i, k, r) =>
      InsertLeafIds(l, x, n);
      InsertLeafIds(r, x, n);
      InsertLeafDistinct(l, x, n);
      InsertLeafDistinct(r, x, n);
  }

  /** A leaf with a fresh address keeps a search tree a search tree, with one more node holding `x`. */
  lemma InsertLeafFacts(t: Tree, x: int, n: nat)
    requires Distinct(t) && Ordered(t) && n !in Ids(t)
    ensures Distinct(InsertLeaf(t, x, n)) && Ordered(InsertLeaf(t, x, n))
    ensures |Order(InsertLeaf(t, x, n))| == |Order(t)| + 1
    ensures multiset(Contents(InsertLeaf(t, x, n))) == multiset(Contents(t)) + multiset{x}
  {
    InsertLeafContents(t, x, n);
    InsertLeafIds(t, x, n);
    InsertLeafOrdered(t, x, n);
    InsertLeafDistinct(t, x, n);
    OrderContents(t);
    OrderContents(InsertLeaf(t, x, n));
  }

  // ---------------------------------------------------------------------
  // erase
  // ---------------------------------------------------------------------

  /** The leftmost node of a non-empty tree, with its right subtree: the in-order successor erase splices in. */
  function MinNode(t: Tree): (m: Tree)
    requires t.Node?
    ensures m.Node? && m.left.Nil?
  {
    if t.left.Nil? then t else MinNode(t.left)
  }

  /** `t` without its leftmost node; that node's right subtree takes its place. */
  function RemoveMin(t: Tree): Tree {
    match t
    case Nil => Nil
    case Node(l, i, k, r) => if l.Nil? then r else Node(RemoveMin(l), i, k, r)
  }

  /**
   * The subtree left after erasing its root: the right child if there is no
   * left one, the left child if there is no right one, and otherwise the
   * in-order successor moved up in the root's place.
   */
  function EraseRoot(t: Tree): Tree
    requires t.Node?
  {
    if t.left.Nil? then t.right
    else if t.right.Nil? then t.left
    else
      var m := MinNode(t.right);
      Node(t.left, m.id, m.key, RemoveMin(t.right))
  }

  /** erase() of the node with address `x`. */
  function Erase(t: Tree, x: nat): Tree {
    match t
    case Nil => Nil
    case Node(l, i, k, r) =>
      if x == i then EraseRoot(t)
      else if x in Ids(l) then Node(Erase(l, x), i, k, r)
      else Node(l, i, k, Erase(r, x))
  }

  lemma RemoveMinSpec(t: Tree)
    requires t.Node?
    ensures MinNode(t).left.Nil?
    ensures Order(t) == [MinNode(t).id] + Order(RemoveMin(t))
    ensures Contents(t) == [MinNode(t).key] + Contents(RemoveMin(t))
    ensures Ids(RemoveMin(t)) <= Ids(t) && MinNode(t).id in Ids(t)
    ensures Distinct(t) ==> Distinct(RemoveMin(t)) && MinNode(t).id !in Ids(RemoveMin(t))
    ensures Ordered(t) ==> Ordered(RemoveMin(t))
    ensures Ordered(t) ==> forall v | v in Contents(RemoveMin(t)) :: MinNode(t).key <= v
  {
    RemoveMinSeqs(t);
    RemoveMinKeeps(t);
  }

  /** Removing the minimum takes the first address and the first value off the traversal. */
  lemma {:induction false} RemoveMinSeqs(t: Tree)
    requires t.Node?
    ensures Order(t) == [MinNode(t).id] + Order(RemoveMin(t))
    ensures Contents(t) == [MinNode(t).key] + Contents(RemoveMin(t))
    ensures Ids(RemoveMin(t)) <= Ids(t) && MinNode(t).id in Ids(t)
  {
    if t.left.Node? {
      RemoveMinSeqs(t.left);
    }
  }

  /** Removing the minimum keeps the addresses distinct and the values ordered. */
  lemma {:induction false} RemoveMinKeeps(t: Tree)
    requires t.Node?
    ensures Distinct(t) ==> Distinct(RemoveMin(t)) && MinNode(t).id !in Ids(RemoveMin(t))
    ensures Ordered(t) ==> Ordered(RemoveMin(t))
    ensures Ordered(t) ==> forall v | v in Contents(RemoveMin(t)) :: MinNode(t).key <= v
  {
    if t.left.Node? {
      RemoveMinSeqs(t.left);
      RemoveMinKeeps(t.left);
      var l' := RemoveMin(t.left);
      assert Contents(t.left) == [MinNode(t).key] + Contents(l');
      forall v | v in Contents(l') ensures v in Contents(t.left) {
        assert Contents(t.left)[1..] == Contents(l');
      }
      if Ordered(t) {
        assert MinNode(t).key in Contents(t.left);
      }
    }
  }

  lemma {:induction false} EraseRootSpec(t: Tree)
    requires t.Node?
    ensures Order(EraseRoot(t)) == Order(t.left) + Order(t.right)
    ensures Contents(EraseRoot(t)) == Contents(t.left) + Contents(t.right)
    ensures Ids(EraseRoot(t)) <= Ids(t)
    ensures Distinct(t) ==> Distinct(EraseRoot(t)) && t.id !in Ids(EraseRoot(t))
    ensures Ordered(t) ==> Ordered(EraseRoot(t))
  {
    if t.left.Node? && t.right.Node? {
      RemoveMinSpec(t.right);
      var m := MinNode(t.right);
      if Ordered(t) {
        assert m.key in Contents(t.right);
      }
    }
  }

  /** Concatenation is associative. */
  lemma Assoc<X>(a: seq<X>, b: seq<X>, c: seq<X>)
    ensures a + (b + c) == (a + b) + c
  {
  }

  /** Regrouping a concatenation around one element. */
  lemma Regroup<X>(a: seq<X>, b: seq<X>, y: X, c: seq<X>)
    ensures (a + b) + [y] + c == a + (b + [y] + c)
  {
  }

  /** Removing position `k` of `a + [y] + b`. */
  lemma Drop3<X>(a: seq<X>, y: X, b: seq<X>, k: int)
    requires 0 <= k < |a| + 1 + |b|
    ensures k < |a| ==> (a + [y] + b)[..k] == a[..k] && (a + [y] + b)[k + 1..] == a[k + 1..] + [y] + b
    ensures k == |a| ==> (a + [y] + b)[..k] == a && (a + [y] + b)[k + 1..] == b
    ensures k > |a| ==> (a + [y] + b)[..k] == a + [y] + b[..k - |a| - 1] && (a + [y] + b)[k + 1..] == b[k - |a|..]
  {
    var c := a + [y] + b;
    if k < |a| {
      assert c[k + 1..] == a[k + 1..] + [y] + b;
    } else if k > |a| {
      assert c[..k] == a + [y] + b[..k - |a| - 1];
    }
  }

  /** erase(x) removes exactly `x` from the in-order sequence. */
  lemma {:induction false} EraseOrder(t: Tree, k: nat)
    requires Distinct(t) && k < |Order(t)|
    ensures Order(Erase(t, Order(t)[k])) == Order(t)[..k] + Order(t)[k + 1..]
  {
    match t
    case Node(l, i, key, r) =>
      OrderContents(l);
      var ol, or := Order(l), Order(r);
      var nl := |ol|;
      var x := Order(t)[k];
      assert Order(t) == ol + [i] + or;
      if k < nl {
        assert Order(Erase(t, x)) == Order(t)[..k] + Order(t)[k + 1..] by {
          Split3(ol, i, or, k);
          Drop3(ol, i, or, k);
          assert x in Ids(l) && x != i;
          EraseOrder(l, k);
          calc {
            Order(Erase(t, x));
            Order(Erase(l, x)) + [i] + or;
            (ol[..k] + ol[k + 1..]) + [i] + or;
            { Regroup(ol[..k], ol[k + 1..], i, or); }
            ol[..k] + (ol[k + 1..] + [i] + or);
          }
        }
      } else if k == nl {
        assert Order(Erase(t, x)) == Order(t)[..k] + Order(t)[k + 1..] by {
          Split3(ol, i, or, k);
          Drop3(ol, i, or, k);
          EraseRootSpec(t);
        }
      } else {
        assert Order(Erase(t, x)) == Order(t)[..k] + Order(t)[k + 1..] by {
          Split3(ol, i, or, k);
          Drop3(ol, i, or, k);
          OrderContents(r);
          assert x in Ids(r) && x != i && x !in Ids(l);
          var m := k - nl - 1;
          assert m + 1 == k - nl;
          EraseOrder(r, m);
          calc {
            Order(Erase(t, x));
            ol + [i] + Order(Erase(r, x));
            ol + [i] + (or[..m] + or[m + 1..]);
            { Assoc(ol + [i], or[..m], or[m + 1..]); }
            (ol + [i] + or[..m]) + or[m + 1..];
          }
        }
      }
  }

  /** The same as `EraseOrder`, for the values in in-order. */
  lemma {:induction false} EraseContents(t: Tree, k: nat)
    requires Distinct(t) && k < |Order(t)|
    ensures |Contents(t)| == |Order(t)|
    ensures Contents(Erase(t, Order(t)[k])) == Contents(t)[..k] + Contents(t)[k + 1..]
  {
    assert |Contents(t)| == |Order(t)| by {
      OrderContents(t);
    }
    match t
    case Node(l, i, key, r) =>
      OrderContents(l);
      var cl, cr := Contents(l), Contents(r);
      var nl := |cl|;
      var x := Order(t)[k];
      assert Contents(t) == cl + [key] + cr;
      if k < nl {
        assert Contents(Erase(t, x)) == Contents(t)[..k] + Contents(t)[k + 1..] by {
          Split3(Order(l), i, Order(r), k);
          Drop3(cl, key, cr, k);
          assert x in Ids(l) && x != i;
          EraseContents(l, k);
          calc {
            Contents(Erase(t, x));
            Contents(Erase(l, x)) + [key] + cr;
            (cl[..k] + cl[k + 1..]) + [key] + cr;
            { Regroup(cl[..k], cl[k + 1..], key, cr); }
            cl[..k] + (cl[k + 1..] + [key] + cr);
          }
        }
      } else if k == nl {
        assert Contents(Erase(t, x)) == Contents(t)[..k] + Contents(t)[k + 1..] by {
          Split3(Order(l), i, Order(r), k);
          Drop3(cl, key, cr, k);
          EraseRootSpec(t);
        }
      } else {
        assert Contents(Erase(t, x)) == Contents(t)[..k] + Contents(t)[k + 1..] by {
          Split3(Order(l), i, Order(r), k);
          Drop3(cl, key, cr, k);
          OrderContents(r);
          assert x in Ids(r) && x != i && x !in Ids(l);
          var m := k - nl - 1;
          assert m + 1 == k - nl;
          EraseContents(r, m);
          calc {
            Contents(Erase(t, x));
            cl + [key] + Contents(Erase(r, x));
            cl + [key] + (cr[..m] + cr[m + 1..]);
            { Assoc(cl + [key], cr[..m], cr[m + 1..]); }
            (cl + [key] + cr[..m]) + cr[m + 1..];
          }
        }
      }
  }




  /** erase(x) keeps the BST order and distinct addresses, and drops exactly the node `x`. */
  lemma {:induction false} EraseInvariants(t: Tree, x: nat)
    requires Distinct(t) && x in Ids(t)
    ensures Ids(Erase(t, x)) <= Ids(t) && x !in Ids(Erase(t, x))
    ensures Distinct(Erase(t, x))
    ensures Ordered(t) ==> Ordered(Erase(t, x))
  {
    match t
    case Node(l, i, k, r) =>
      if x == i {
        EraseRootSpec(t);
      } else if x in Ids(l) {
        EraseInvariants(l, x);
        EraseValuesFrom(l, x);
      } else {
        EraseInvariants(r, x);
        EraseValuesFrom(r, x);
      }
  }

  /** Erasing never introduces a value. */
  lemma EraseValuesFrom(t: Tree, x: nat)
    requires Distinct(t) && x in Ids(t)
    ensures forall v | v in Contents(Erase(t, x)) :: v in Contents(t)
  {
    OrderContents(t);
    var k :| 0 <= k < |Order(t)| && Order(t)[k] == x;
    EraseContents(t, k);
    var c := Contents(t);
    forall v | v in Contents(Erase(t, x)) ensures v in c {
      assert v in c[..k] || v in c[k + 1..];
    }
  }

  /** erase(x) is the splice of `EraseRoot` at the node's position. */
  lemma {:induction false} ErasePath(t: Tree, x: nat)
    requires Distinct(t) && x in Ids(t)
    ensures Sub(t, PathTo(t, x)).Node?
    ensures Erase(t, x) == Replace(t, PathTo(t, x), EraseRoot(Sub(t, PathTo(t, x))))
  {
    PathToSpec(t, x);
    match t
    case Node(l, i, _, r) =>
      if x == i {
      } else if x in Ids(l) {
        ErasePath(l, x);
        assert PathTo(t, x)[1..] == PathTo(l, x);
      } else {
        ErasePath(r, x);
        assert PathTo(t, x)[1..] == PathTo(r, x);
      }
  }

  /** The leftmost node of the right subtree, reached by `L` steps, is `MinNode`; removing it replaces it by its right subtree. */
  lemma {:induction false} MinNodeAtPath(t: Tree, p: seq<Dir>)
    requires t.Node? && Sub(t, p).Node? && Sub(t, p).left.Nil?
    requires AllLeft(p)
    ensures Sub(t, p) == MinNode(t)
    ensures RemoveMin(t) == Replace(t, p, Sub(t, p).right)
    decreases |p|
  {
    if p != [] {
      assert p[0] == L;
      MinNodeAtPath(t.left, p[1..]);
    }
  }

  /**
   * The node reached from the right child of `x` by left turns until there
   * is no left child is the in-order successor of `x`.
   */
  lemma SuccessorFound(t: Tree, x: nat, rp: seq<Dir>)
    requires Distinct(t) && x in Ids(t)
    requires var u := Sub(t, PathTo(t, x));
      u.Node? && u.right.Node? && AllLeft(rp) && Sub(u.right, rp).Node? && Sub(u.right, rp).left.Nil?
    ensures Adjacent(t, x, R) == Sub(Sub(t, PathTo(t, x)).right, rp).id
  {
    var p := PathTo(t, x);
    PathToSpec(t, x);
    var u := Sub(t, p);
    AdjacentAtPath(t, p, R);
    ExtremeOrder(u.right, L);
    RemoveMinSpec(u.right);
    MinNodeAtPath(u.right, rp);
  }

  // ---------------------------------------------------------------------
  // Traversal order
  // ---------------------------------------------------------------------

  /** The BST order makes the in-order traversal non-decreasing. */
  lemma {:induction false} OrderedSorted(t: Tree)
    requires Ordered(t)
    ensures Sorted(Contents(t))
  {
    match t
    case Nil =>
    case Node(l, _, k, r) =>
      OrderedSorted(l);
      OrderedSorted(r);
      var c := Contents(t);
      var nl := |Contents(l)|;
      forall a, b | 0 <= a < b < |c| ensures c[a] <= c[b] {
        if a < nl {
          assert c[a] in Contents(l);
          if b > nl {
            assert c[b] == Contents(r)[b - nl - 1];
            assert c[b] in Contents(r);
          }
        } else if a == nl {
          assert c[b] in Contents(r);
        } else {
          assert c[a] == Contents(r)[a - nl - 1] && c[b] == Contents(r)[b - nl - 1];
        }
      }
  }
}
