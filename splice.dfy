/**
 * The pointer surgery of insert, deleteNode and erase (bst.h), shown to
 * rebuild exactly the abstract tree that `InsertLeaf` and `Erase` describe.
 * Each lemma takes the arena before and after the rewiring.
 */
module BstSplice {
  import opened BstTree
  import opened BstLinks
  import opened BstOps

  /**
   * `deleteNode` below a parent: the node at `q + [e]` is replaced by its
   * child `c`, which its parent (the node at `q`) adopts on the side where
   * the node hung.
   */
  lemma Unhook(t: Tree, q: seq<Dir>, e: Dir, c: Tree, ns: seq<BNode>, ns': seq<BNode>)
    requires Linked(t, Null, ns) && Distinct(t)
    requires Sub(t, q).Node? && Child(Sub(t, q), e).Node?
    requires c == Child(Sub(t, q), e).left || c == Child(Sub(t, q), e).right
    requires Sub(t, q).id < |ns|
    requires var par := Sub(t, q).id;
      var side := if ns[par].pLeft == Child(Sub(t, q), e).id then L else R;
      ns' == Hang(ns[par := Link'(ns[par], side, Null)], par, side, Root(c))
    ensures Linked(Replace(t, q + [e], c), Null, ns')
  {
    var u := Sub(t, q);
    var v := Child(u, e);
    LinkedAt(t, Null, ns, q);
    SubDistinct(t, q);
    LinkChild(u, ParentAt(t, Null, q), ns, L);
    LinkChild(u, ParentAt(t, Null, q), ns, R);
    LinkChild(v, u.id, ns, L);
    LinkChild(v, u.id, ns, R);
    LinkedBound(c, v.id, ns);
    var side := if ns[u.id].pLeft == v.id then L else R;
    assert side == e;
    LinkedReparent(c, v.id, u.id, ns, ns');
    SubIds(t, q);
    LinkedHang(t, q, e, c, ns, ns');
  }

  /** The leaf `n` holding `t`, hung as the `d` child of the node at `path`, completes `InsertLeaf`. */
  lemma AttachLeaf(s0: Tree, path: seq<Dir>, d: Dir, t: int, n: nat, ns: seq<BNode>, ns': seq<BNode>)
    requires Linked(s0, Null, ns) && Distinct(s0) && |ns| == n
    requires Sub(s0, path).Node? && Child(Sub(s0, path), d).Nil?
    requires InsertLeaf(s0, t, n) == Replace(s0, path, InsertLeaf(Sub(s0, path), t, n))
    requires d == (if t < Sub(s0, path).key then L else R)
    requires Sub(s0, path).id < n
    requires ns' == (ns + [BNode(t, Null, Null, Null)])
               [Sub(s0, path).id := Link'(ns[Sub(s0, path).id], d, n)]
               [n := BNode(t, Null, Null, Sub(s0, path).id)]
    ensures Linked(InsertLeaf(s0, t, n), Null, ns')
    ensures |ns'| == n + 1 && ns'[n].data == t
    ensures forall i | 0 <= i < n :: ns'[i].data == ns[i].data
  {
    var sub := Sub(s0, path);
    var par := ParentAt(s0, Null, path);
    var o := Child(sub, Flip(d));
    var leaf := Node(Nil, n, t, Nil);
    var s' := WithChild(sub, d, leaf);
    assert InsertLeaf(sub, t, n) == s';
    LeafCells(ns, sub.id, d, t, ns');
    assert sub.id in Ids(sub) && Linked(sub, par, ns) && Distinct(sub) by {
      LinkedAt(s0, Null, ns, path);
      SubDistinct(s0, path);
    }
    assert forall i | i in Ids(s0) :: i < n by {
      LinkedBound(s0, Null, ns);
    }
    assert forall i | i in Ids(o) :: i in Ids(s0) && i != sub.id by {
      SubIds(s0, path);
    }
    LinkedFrame(o, sub.id, ns, ns');
    if d == L {
      assert s' == Node(leaf, sub.id, sub.key, o);
    } else {
      assert s' == Node(o, sub.id, sub.key, leaf);
    }
    assert Linked(leaf, sub.id, ns');
    assert ns'[sub.id] == BNode(sub.key, Root(s'.left), Root(s'.right), par);
    assert Linked(s', par, ns');
    forall i | i in Ids(s0) && i !in Ids(sub) && i < |ns|
      ensures i < |ns'| && ns'[i] == ns[i]
    {
      assert i != sub.id;
    }
    LinkedReplace(s0, Null, path, s', ns, ns');
  }

  /** The cells that hanging a new leaf holding `t` below the node `a` changes. */
  lemma LeafCells(ns: seq<BNode>, a: nat, d: Dir, t: int, ns': seq<BNode>)
    requires a < |ns|
    requires ns' == (ns + [BNode(t, Null, Null, Null)])[a := Link'(ns[a], d, |ns|)][|ns| := BNode(t, Null, Null, a)]
    ensures |ns'| == |ns| + 1 && ns'[a] == Link'(ns[a], d, |ns|) && ns'[|ns|] == BNode(t, Null, Null, a)
    ensures forall i | 0 <= i < |ns| && i != a :: ns'[i] == ns[i]
    ensures forall i | 0 <= i < |ns| :: ns'[i].data == ns[i].data
  {
  }




  /**
   * The arena after lines 404-416 of bst.h.  `m`, the leftmost node of the
   * right subtree `r` of `u`, adopts `u`'s left subtree; unless `m` is `r`
   * itself, its parent `y` adopts `m`'s right subtree and `m` adopts `r`.
   */
  function Promoted(ns: seq<BNode>, u: Tree, rp: seq<Dir>): seq<BNode>
    requires u.Node? && u.left.Node? && u.right.Node?
  {
    var m := Sub(u.right, rp);
    if m.Nil? then ns
    else
      var ns1 := Hang(ns, m.id, L, u.left.id);
      if rp == [] then ns1
      else Hang(Hang(ns1, ParentAt(u.right, u.id, rp), L, Root(m.right)), m.id, R, u.right.id)
  }

  /** What `Hang` does cell by cell. */
  lemma HangAt(ns: seq<BNode>, n: nat, d: Dir, c: Ptr)
    requires n < |ns| && (c == Null || 0 <= c < |ns|) && c != n
    ensures |Hang(ns, n, d, c)| == |ns|
    ensures Hang(ns, n, d, c)[n] == Link'(ns[n], d, c)
    ensures c != Null ==> Hang(ns, n, d, c)[c] == ns[c].(pParent := n)
    ensures forall i | 0 <= i < |ns| && i != n && i != c :: Hang(ns, n, d, c)[i] == ns[i]
  {
  }

  /** The cells that lines 404-416 rewrite when the successor `m` lies below the right child `rid`. */
  lemma DeepCells(ns: seq<BNode>, m: nat, lid: nat, y: nat, mr: Ptr, rid: nat)
    requires m < |ns| && lid < |ns| && y < |ns| && rid < |ns| && (mr == Null || 0 <= mr < |ns|)
    requires lid != m && lid != y && lid != mr && lid != rid
    requires m != y && m != mr && m != rid && mr != y && mr != rid
    ensures var ns2 := Hang(Hang(Hang(ns, m, L, lid), y, L, mr), m, R, rid);
      |ns2| == |ns| &&
      ns2[lid] == ns[lid].(pParent := m) &&
      ns2[m] == ns[m].(pLeft := lid, pRight := rid) &&
      ns2[y] == ns[y].(pLeft := mr, pParent := if y == rid then m else ns[y].pParent) &&
      (mr != Null ==> ns2[mr] == ns[mr].(pParent := y)) &&
      (y != rid ==> ns2[rid] == ns[rid].(pParent := m)) &&
      forall i | 0 <= i < |ns| && i != m && i != lid && i != y && i != mr && i != rid :: ns2[i] == ns[i]
  {
    var ns1 := Hang(ns, m, L, lid);
    HangAt(ns, m, L, lid);
    var ns1' := Hang(ns1, y, L, mr);
    HangAt(ns1, y, L, mr);
    HangAt(ns1', m, R, rid);
  }

  /**
   * When `m` lies below `r`, the rewiring leaves the right subtree without
   * `m` linked below `m`.  The cells that change: `y` (the parent of `m`)
   * takes `m`'s right child `mr`, which points back at `y`, and `r`'s root
   * points up at `m`; every other cell of `r` but `m` keeps its contents.
   */
  lemma RemoveMinLinked(r: Tree, x: nat, rp: seq<Dir>, ns: seq<BNode>, ns2: seq<BNode>)
    requires Linked(r, x, ns) && Distinct(r) && x !in Ids(r) && |ns2| == |ns|
    requires rp != [] && AllLeft(rp)
    requires Sub(r, rp).Node? && Sub(r, rp).left.Nil?
    requires var m := Sub(r, rp).id; var mr := Root(Sub(r, rp).right); var y := ParentAt(r, x, rp);
      0 <= y < |ns| &&
      ns2[y] == ns[y].(pLeft := mr, pParent := if y == r.id then m else ns[y].pParent) &&
      (mr != Null ==> 0 <= mr < |ns| && ns2[mr] == ns[mr].(pParent := y)) &&
      (y != r.id ==> r.id < |ns| && ns2[r.id] == ns[r.id].(pParent := m)) &&
      forall i | i in Ids(r) && i < |ns| && i != m && i != mr && i != y && i != r.id :: ns2[i] == ns[i]
    ensures Linked(RemoveMin(r), Sub(r, rp).id, ns2)
  {
    var mid := ns2[r.id := ns2[r.id].(pParent := x)];
    RemoveMinRelinked(r, x, rp, ns, ns2);
    RemoveMinSpec(r);
    assert RemoveMin(r).id == r.id by {
      assert rp[0] == L && r.left.Node?;
    }
    LinkedReparent(RemoveMin(r), x, Sub(r, rp).id, mid, ns2);
  }

  /** The first half of `RemoveMinLinked`: the tree without its minimum, still hanging below `x`. */
  lemma RemoveMinRelinked(r: Tree, x: nat, rp: seq<Dir>, ns: seq<BNode>, ns2: seq<BNode>)
    requires Linked(r, x, ns) && Distinct(r) && x !in Ids(r) && |ns2| == |ns|
    requires rp != [] && AllLeft(rp)
    requires Sub(r, rp).Node? && Sub(r, rp).left.Nil?
    requires var m := Sub(r, rp).id; var mr := Root(Sub(r, rp).right); var y := ParentAt(r, x, rp);
      0 <= y < |ns| &&
      ns2[y] == ns[y].(pLeft := mr, pParent := if y == r.id then m else ns[y].pParent) &&
      (mr != Null ==> 0 <= mr < |ns| && ns2[mr] == ns[mr].(pParent := y)) &&
      (y != r.id ==> r.id < |ns| && ns2[r.id] == ns[r.id].(pParent := m)) &&
      forall i | i in Ids(r) && i < |ns| && i != m && i != mr && i != y && i != r.id :: ns2[i] == ns[i]
    ensures r.id < |ns2| && Linked(RemoveMin(r), x, ns2[r.id := ns2[r.id].(pParent := x)])
  {
    var mt := Sub(r, rp);
    var m := mt.id;
    var mr := mt.right;
    var yp := rp[..|rp| - 1];
    assert rp == yp + [L];
    SubSnoc(r, yp, L);
    ParentAtSnoc(r, x, yp, L);
    var yt := Sub(r, yp);
    var y := yt.id;
    LinkedAt(r, x, ns, yp);
    SubDistinct(r, yp);
    SubIds(r, yp);
    LinkChild(yt, ParentAt(r, x, yp), ns, L);
    LinkChild(yt, ParentAt(r, x, yp), ns, R);
    LinkChild(mt, y, ns, R);
    LinkedBound(r, x, ns);
    if yp != [] {
      SubInChild(r, yp);
    }
    var mid := ns2[r.id := ns2[r.id].(pParent := x)];
    LinkedReparent(mr, m, y, ns, mid);
    LinkedFrame(yt.right, y, ns, mid);
    var yt' := WithChild(yt, L, mr);
    assert Linked(yt', ParentAt(r, x, yp), mid);
    LinkedReplace(r, x, yp, yt', ns, mid);
    ReplaceSnoc(r, yp, L, mr);
    MinNodeAtPath(r, rp);
  }

  /** What the rewiring of lines 404-416 leaves behind in `u`'s place, stated on its root `m`. */
  ghost predicate PromotedLinked(u: Tree, ns: seq<BNode>, ns2: seq<BNode>)
    requires u.Node? && u.left.Node? && u.right.Node?
  {
    var e := EraseRoot(u);
    e.Node? && |ns2| == |ns| && e.id < |ns| &&
    Linked(e.left, e.id, ns2) && Linked(e.right, e.id, ns2) &&
    ns2[e.id] == BNode(e.key, Root(e.left), Root(e.right), ns[e.id].pParent) &&
    forall i | 0 <= i < |ns| && i !in Ids(u) :: ns2[i] == ns[i]
  }

  /** The successor is `u`'s right child: it only adopts `u`'s left subtree. */
  lemma PromoteChild(u: Tree, px: Ptr, ns: seq<BNode>)
    requires Linked(u, px, ns) && Distinct(u) && u.Node? && u.left.Node? && u.right.Node? && u.right.left.Nil?
    ensures EraseRoot(u).id == u.right.id
    ensures PromotedLinked(u, ns, Promoted(ns, u, []))
  {
    var r := u.right;
    var l := u.left;
    LinkChild(u, px, ns, L);
    LinkChild(u, px, ns, R);
    LinkChild(r, u.id, ns, R);
    LinkedBound(u, px, ns);
    HangAt(ns, r.id, L, l.id);
    var ns2 := Promoted(ns, u, []);
    assert ns2 == Hang(ns, r.id, L, l.id);
    LinkedReparent(l, u.id, r.id, ns, ns2);
    LinkedFrame(r.right, r.id, ns, ns2);
  }

  /** The successor lies deeper: it also hands its right subtree to its parent and adopts `r`. */
  lemma PromoteDeep(u: Tree, px: Ptr, rp: seq<Dir>, ns: seq<BNode>)
    requires Linked(u, px, ns) && Distinct(u) && u.Node? && u.left.Node? && u.right.Node?
    requires rp != [] && AllLeft(rp)
    requires Sub(u.right, rp).Node? && Sub(u.right, rp).left.Nil?
    ensures EraseRoot(u).id == Sub(u.right, rp).id
    ensures PromotedLinked(u, ns, Promoted(ns, u, rp))
  {
    var r := u.right;
    var l := u.left;
    var x := u.id;
    var mt := Sub(r, rp);
    var m := mt.id;
    var mr := Root(mt.right);
    var y := ParentAt(r, x, rp);
    MinNodeAtPath(r, rp);
    LinkChild(u, px, ns, L);
    LinkChild(u, px, ns, R);
    assert Linked(mt, y, ns) && ns[m].data == mt.key by {
      LinkedAt(r, x, ns, rp);
    }
    assert m in Ids(r.left) && y in Ids(r) && y != m && (mr != Null ==> mr in Ids(r.left) && mr != y) && mr != m by {
      var yp := rp[..|rp| - 1];
      assert rp == yp + [L];
      SubSnoc(r, yp, L);
      ParentAtSnoc(r, x, yp, L);
      SubIds(r, yp);
      SubDistinct(r, yp);
      SubDistinct(r, rp);
      assert rp[0] == L && r.left.Node?;
      SubIds(r.left, rp[1..]);
      SubIds(mt, [R]);
      assert Sub(mt, [R]) == mt.right;
    }
    assert Ids(u) == Ids(l) + {x} + Ids(r) && Ids(r) == Ids(r.left) + {r.id} + Ids(r.right);
    assert forall i | i in Ids(u) :: i < |ns| by {
      LinkedBound(u, px, ns);
    }
    DeepCells(ns, m, l.id, y, mr, r.id);
    var ns2 := Hang(Hang(Hang(ns, m, L, l.id), y, L, mr), m, R, r.id);
    assert ns2 == Promoted(ns, u, rp);
    RemoveMinLinked(r, x, rp, ns, ns2);
    forall i | i in Ids(l) && i != l.id && i < |ns|
      ensures i < |ns2| && ns2[i] == ns[i]
    {
      assert i !in Ids(r);
      assert i != m && i != y && i != mr && i != r.id;
    }
    LinkedReparent(l, x, m, ns, ns2);
    forall i | 0 <= i < |ns| && i !in Ids(u)
      ensures ns2[i] == ns[i]
    {
      assert i != m && i != l.id && i != y && i != mr && i != r.id;
    }
    assert EraseRoot(u) == Node(l, m, mt.key, RemoveMin(r));
    assert ns2[m] == BNode(mt.key, l.id, r.id, ns[m].pParent);
  }


  /**
   * Lines 418-425 of bst.h, on the rewired subtree: the successor `m`, root
   * of `EraseRoot(u)`, points up at `u`'s old parent `px`, which (unless
   * `u` was the root) points down at `m` on side `side`.
   */
  lemma PromotedHung(u: Tree, px: Ptr, side: Dir, ns: seq<BNode>, ns2: seq<BNode>)
    requires u.Node? && u.left.Node? && u.right.Node? && Distinct(u)
    requires PromotedLinked(u, ns, ns2)
    requires px == Null || (0 <= px < |ns| && px !in Ids(u))
    ensures var ns3 := Hang(ns2, px, side, EraseRoot(u).id);
      Linked(EraseRoot(u), px, ns3) && |ns3| == |ns| &&
      (px != Null ==> ns3[px] == Link'(ns[px], side, EraseRoot(u).id)) &&
      forall i | 0 <= i < |ns| && i !in Ids(u) && i != px :: ns3[i] == ns[i]
  {
    var e := EraseRoot(u);
    EraseRootSpec(u);
    var ns3 := Hang(ns2, px, side, e.id);
    LinkedFrame(e.left, e.id, ns2, ns3);
    LinkedFrame(e.right, e.id, ns2, ns3);
  }

  /**
   * Lines 418-425 of bst.h: the successor `m` takes the erased node's place
   * below its parent (or becomes the root).  After lines 404-416 this
   * rebuilds exactly `Erase(t, x)`.
   */
  lemma SuccessorSpliced(t: Tree, x: nat, rp: seq<Dir>, ns: seq<BNode>)
    requires Linked(t, Null, ns) && Distinct(t) && x in Ids(t)
    requires var u := Sub(t, PathTo(t, x));
      u.Node? && u.left.Node? && u.right.Node? && AllLeft(rp) &&
      Sub(u.right, rp).Node? && Sub(u.right, rp).left.Nil?
    ensures x < |ns|
    ensures var u := Sub(t, PathTo(t, x));
      var m := Sub(u.right, rp).id;
      var px := ns[x].pParent;
      var ns2 := Promoted(ns, u, rp);
      var side := if 0 <= px < |ns2| && ns2[px].pLeft == x then L else R;
      (px == Null || 0 <= px < |ns|) &&
      Linked(Erase(t, x), Null, Hang(ns2, px, side, m)) &&
      Root(Erase(t, x)) == (if px == Null then m else Root(t))
  {
    var p := PathTo(t, x);
    PathToSpec(t, x);
    ErasePath(t, x);
    var u := Sub(t, p);
    var px := ParentAt(t, Null, p);
    LinkedAt(t, Null, ns, p);
    SubDistinct(t, p);
    SubIds(t, p);
    LinkedBound(t, Null, ns);
    LinkChild(u, px, ns, L);
    var mt := Sub(u.right, rp);
    var m := mt.id;
    if rp == [] {
      PromoteChild(u, px, ns);
    } else {
      PromoteDeep(u, px, rp, ns);
    }
    var ns2 := Promoted(ns, u, rp);
    var e := EraseRoot(u);
    EraseRootSpec(u);
    if p == [] {
      assert px == Null;
      PromotedHung(u, px, R, ns, ns2);
    } else {
      var q := p[..|p| - 1];
      var d := p[|p| - 1];
      assert p == q + [d];
      SubSnoc(t, q, d);
      ParentAtSnoc(t, Null, q, d);
      var w := Sub(t, q);
      LinkedAt(t, Null, ns, q);
      SubDistinct(t, q);
      LinkChild(w, ParentAt(t, Null, q), ns, L);
      LinkChild(w, ParentAt(t, Null, q), ns, R);
      assert px == w.id && px !in Ids(u);
      var side := if ns2[px].pLeft == x then L else R;
      assert side == d;
      PromotedHung(u, px, side, ns, ns2);
      LinkedHang(t, q, d, e, ns, Hang(ns2, px, side, m));
    }
  }

  /** The rewiring of lines 404-416 leaves the cell of `u`'s root and that of its parent alone. */
  lemma PromotedKeeps(u: Tree, px: Ptr, rp: seq<Dir>, ns: seq<BNode>)
    requires Linked(u, px, ns) && Distinct(u)
    requires u.Node? && u.left.Node? && u.right.Node? && AllLeft(rp)
    requires Sub(u.right, rp).Node? && Sub(u.right, rp).left.Nil?
    requires px == Null || (0 <= px < |ns| && px !in Ids(u))
    ensures var ns2 := Promoted(ns, u, rp);
      |ns2| == |ns| && u.id < |ns| && ns2[u.id] == ns[u.id] && (px != Null ==> ns2[px] == ns[px])
  {
    SuccessorCells(u, px, rp, ns);
  }

  /**
   * The cells that lines 397-416 of bst.h read when the node `u` has two
   * children and `m`, reached from its right child `rid` by the left turns
   * `rp`, has no left child: what they hold, and which of them differ.
   */
  lemma SuccessorCells(u: Tree, px: Ptr, rp: seq<Dir>, ns: seq<BNode>)
    requires Linked(u, px, ns) && Distinct(u)
    requires u.Node? && u.left.Node? && u.right.Node? && AllLeft(rp)
    requires Sub(u.right, rp).Node? && Sub(u.right, rp).left.Nil?
    ensures var x := u.id; var mt := Sub(u.right, rp);
      var m := mt.id; var lid := u.left.id; var rid := u.right.id;
      var mr := Root(mt.right); var y := ParentAt(u.right, x, rp);
      x < |ns| && ns[x] == BNode(u.key, lid, rid, px) &&
      m < |ns| && lid < |ns| && rid < |ns| && 0 <= y < |ns| && (mr == Null || 0 <= mr < |ns|) &&
      ns[m].pLeft == Null && ns[m].pRight == mr && ns[m].pParent == y &&
      (rp == [] <==> m == rid) && (rp == [] ==> y == x) &&
      x != m && x != lid && x != rid && x != mr && lid != m && lid != rid && lid != y && lid != mr &&
      m != mr && m != y && y != mr &&
      (rp != [] ==> y != x && mr != rid) &&
      m in Ids(u) && lid in Ids(u) && rid in Ids(u) && (mr != Null ==> mr in Ids(u)) && (rp != [] ==> y in Ids(u))
  {
    var x := u.id;
    var r := u.right;
    LinkChild(u, px, ns, L);
    LinkChild(u, px, ns, R);
    LinkedBound(u, px, ns);
    var mt := Sub(r, rp);
    SubIds(r, rp);
    LinkedAt(r, x, ns, rp);
    LinkChild(mt, ParentAt(r, x, rp), ns, R);
    LinkedBound(mt.right, mt.id, ns);
    SubDistinct(r, rp);
    if rp != [] {
      var yp := rp[..|rp| - 1];
      assert rp == yp + [L];
      SubSnoc(r, yp, L);
      ParentAtSnoc(r, x, yp, L);
      SubIds(r, yp);
      SubInChild(r, rp);
      assert rp[0] == L;
      SubIds(r.left, rp[1..]);
      SubDistinct(r, yp);
    }
  }

  /**
   * The parent of the node `x`, read at lines 418-422 of bst.h: nullptr
   * exactly for the root, otherwise a cell outside `x`'s subtree whose
   * left or right pointer, but not both, refers to `x`.
   */
  lemma ParentCell(t: Tree, x: nat, ns: seq<BNode>)
    requires Linked(t, Null, ns) && Distinct(t) && x in Ids(t)
    ensures Sub(t, PathTo(t, x)).Node? && Sub(t, PathTo(t, x)).id == x && x < |ns|
    ensures Linked(Sub(t, PathTo(t, x)), ns[x].pParent, ns) && Distinct(Sub(t, PathTo(t, x)))
    ensures var px := ns[x].pParent;
      (px == Null <==> x == Root(t)) &&
      (px != Null ==> 0 <= px < |ns| && px !in Ids(Sub(t, PathTo(t, x))) &&
                      (ns[px].pLeft == x <==> ns[px].pRight != x))
  {
    var p := PathTo(t, x);
    PathToSpec(t, x);
    var u := Sub(t, p);
    LinkedAt(t, Null, ns, p);
    SubDistinct(t, p);
    LinkChild(u, ParentAt(t, Null, p), ns, L);
    if p == [] {
      assert x == Root(t);
    } else {
      var q := p[..|p| - 1];
      var d := p[|p| - 1];
      SplitLast(p);
      SubSnoc(t, q, d);
      ParentAtSnoc(t, Null, q, d);
      var w := Sub(t, q);
      LinkedAt(t, Null, ns, q);
      SubDistinct(t, q);
      SubIds(t, q);
      LinkChild(w, ParentAt(t, Null, q), ns, L);
      LinkChild(w, ParentAt(t, Null, q), ns, R);
      SubInChild(t, p);
      assert x != Root(t);
    }
  }
}
