/**
 * How the arena links of a tree survive local rewiring.  Insert, erase and
 * the splice in `deleteNode` change a handful of cells; these lemmas carry
 * `Linked` from the old arena to the new one.
 */
module BstLinks {
  import opened BstTree

  /** The cell of the node at path `p` links exactly as the subtree there says. */
  lemma {:induction false} LinkedAt(t: Tree, par: Ptr, ns: seq<BNode>, p: seq<Dir>)
    requires Linked(t, par, ns)
    ensures Linked(Sub(t, p), ParentAt(t, par, p), ns)
    decreases |p|
  {
    if p != [] && t.Node? {
      LinkedAt(Child(t, p[0]), t.id, ns, p[1..]);
    }
  }

  /** A linked node's child pointer in direction `e` refers to its `e` subtree, linked below it. */
  lemma LinkChild(t: Tree, par: Ptr, ns: seq<BNode>, e: Dir)
    requires Linked(t, par, ns) && t.Node?
    ensures t.id < |ns| && Link(ns[t.id], e) == Root(Child(t, e)) && Linked(Child(t, e), t.id, ns)
    ensures ns[t.id].data == t.key && ns[t.id].pParent == par
  {
  }

  /** Cells outside a tree may change without disturbing it. */
  lemma {:induction false} LinkedFrame(t: Tree, par: Ptr, ns: seq<BNode>, ns': seq<BNode>)
    requires Linked(t, par, ns)
    requires forall i | i in Ids(t) && i < |ns| :: i < |ns'| && ns'[i] == ns[i]
    ensures Linked(t, par, ns')
  {
    match t
    case Nil =>
    case Node(l, i, _, r) =>
      LinkedFrame(l, i, ns, ns');
      LinkedFrame(r, i, ns, ns');
  }

  /** Re-pointing the root's back-link hangs the same tree below a new parent. */
  lemma LinkedReparent(t: Tree, a: Ptr, b: Ptr, ns: seq<BNode>, ns': seq<BNode>)
    requires Linked(t, a, ns) && Distinct(t)
    requires t.Node? ==> t.id < |ns'| && ns'[t.id] == ns[t.id].(pParent := b)
    requires forall i | i in Ids(t) && i != Root(t) && i < |ns| :: i < |ns'| && ns'[i] == ns[i]
    ensures Linked(t, b, ns')
  {
    if t.Node? {
      LinkedFrame(t.left, t.id, ns, ns');
      LinkedFrame(t.right, t.id, ns, ns');
    }
  }

  /**
   * Replacing the subtree at `p` by one with the same root address, linked
   * below the same parent in the new arena, keeps the whole tree linked as
   * long as the cells outside that subtree did not change.
   */
  lemma {:induction false} LinkedReplace(t: Tree, par: Ptr, p: seq<Dir>, s: Tree, ns: seq<BNode>, ns': seq<BNode>)
    requires Linked(t, par, ns) && Distinct(t)
    requires Sub(t, p).Node? && Root(s) == Root(Sub(t, p))
    requires Linked(s, ParentAt(t, par, p), ns')
    requires forall i | i in Ids(t) && i !in Ids(Sub(t, p)) && i < |ns| :: i < |ns'| && ns'[i] == ns[i]
    ensures Linked(Replace(t, p, s), par, ns')
    decreases |p|
  {
    if p != [] {
      var c := Child(t, p[0]);
      var o := Child(t, Flip(p[0]));
      SubInChild(t, p);
      SubIds(c, p[1..]);
      LinkedReplace(c, t.id, p[1..], s, ns, ns');
      LinkedFrame(o, t.id, ns, ns');
      var c' := Replace(c, p[1..], s);
      assert Root(c') == Root(c);
      if p[0] == L {
        assert Replace(t, p, s) == Node(c', t.id, t.key, o);
      } else {
        assert Replace(t, p, s) == Node(o, t.id, t.key, c');
      }
    }
  }

  /** The cell of the k-th node in in-order holds the k-th value of the traversal. */
  lemma {:induction false} LinkedData(t: Tree, par: Ptr, ns: seq<BNode>)
    requires Linked(t, par, ns)
    ensures |Order(t)| == |Contents(t)|
    ensures forall k | 0 <= k < |Order(t)| :: Order(t)[k] < |ns| && ns[Order(t)[k]].data == Contents(t)[k]
  {
    match t
    case Nil =>
    case Node(l, i, _, r) =>
      LinkedData(l, i, ns);
      LinkedData(r, i, ns);
      var o := Order(t);
      var c := Contents(t);
      forall k | 0 <= k < |o| ensures o[k] < |ns| && ns[o[k]].data == c[k] {
        var nl := |Order(l)|;
        if k < nl {
          assert o[k] == Order(l)[k] && c[k] == Contents(l)[k];
        } else if k > nl {
          assert o[k] == Order(r)[k - nl - 1] && c[k] == Contents(r)[k - nl - 1];
        }
      }
  }

  /**
   * The node at `q` takes `c` as its new `d` child.  `c` is built from nodes
   * of the old `d` subtree and is already linked below that node in `ns'`;
   * apart from the old `d` subtree, only the node's own `d` pointer changed.
   */
  lemma LinkedHang(t: Tree, q: seq<Dir>, d: Dir, c: Tree, ns: seq<BNode>, ns': seq<BNode>)
    requires Linked(t, Null, ns) && Distinct(t) && Sub(t, q).Node?
    requires Linked(c, Sub(t, q).id, ns') && Ids(c) <= Ids(Child(Sub(t, q), d))
    requires Sub(t, q).id < |ns| && Sub(t, q).id < |ns'|
    requires ns'[Sub(t, q).id] == Link'(ns[Sub(t, q).id], d, Root(c))
    requires forall i | i in Ids(t) && i !in Ids(Child(Sub(t, q), d)) && i != Sub(t, q).id && i < |ns| ::
      i < |ns'| && ns'[i] == ns[i]
    ensures Linked(Replace(t, q + [d], c), Null, ns')
  {
    var u := Sub(t, q);
    LinkedAt(t, Null, ns, q);
    SubDistinct(t, q);
    SubIds(t, q);
    var o := Child(u, Flip(d));
    LinkedFrame(o, u.id, ns, ns');
    var u' := WithChild(u, d, c);
    assert Linked(u', ParentAt(t, Null, q), ns');
    LinkedReplace(t, Null, q, u', ns, ns');
    ReplaceSnoc(t, q, d, c);
  }
}
