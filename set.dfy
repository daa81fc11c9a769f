/**
 * `custom::set<T>` of set.h with `T = int`: a `BST` that is only ever
 * inserted into with `keepUnique`, so it never holds a value twice, and the
 * set iterator, which wraps the tree's iterator and forwards to it.
 */
module CustomSet {
  import opened BstTree
  import opened BstLinks
  import opened BstOps
  import opened Bst

  /** `set<T>::iterator`: a tree iterator in a wrapper. */
  datatype SetIterator = SetIterator(it: Iterator)

  /**
   * Postfix `it++` of set.h: keep a copy, apply the tree iterator's postfix
   * `++` to the wrapped iterator, return the copy.  The result is the copy
   * and the iterator afterwards; since the tree's postfix `++` does not
   * move, neither does the iterator.
   */
  function PostIncrement(self: SetIterator): (r: (SetIterator, SetIterator))
    ensures r.0 == self && r.1.it.pNode == self.it.pNode
  {
    (self, SetIterator(Bst.PostIncrement(self.it)))
  }

  /** Postfix `it--` of set.h: like `PostIncrement`, it leaves the iterator where it is. */
  function PostDecrement(self: SetIterator): (r: (SetIterator, SetIterator))
    ensures r.0 == self && r.1.it.pNode == self.it.pNode
  {
    (self, SetIterator(Bst.PostDecrement(self.it)))
  }

  /** The node at position `k` of the traversal `o`; `end()` from `|o|` on. */
  function At(o: seq<Ptr>, k: nat): Ptr {
    if k < |o| then o[k] else Null
  }

  /** Where `p` stands in the traversal `o`: its first index, `|o|` when it is absent. */
  function Position(o: seq<Ptr>, p: Ptr): (k: nat)
    ensures k <= |o|
    ensures k < |o| ==> o[k] == p
    ensures forall i | 0 <= i < k :: o[i] != p
  {
    PositionFrom(o, p, 0)
  }

  /** The first index from `i` on where `p` stands in `o`, `|o|` when there is none. */
  function PositionFrom(o: seq<Ptr>, p: Ptr, i: nat): (k: nat)
    requires i <= |o|
    ensures i <= k <= |o|
    ensures k < |o| ==> o[k] == p
    ensures forall j | i <= j < k :: o[j] != p
    decreases |o| - i
  {
    if i == |o| then |o|
    else if o[i] == p then i
    else PositionFrom(o, p, i + 1)
  }

  /** `c` holds each value listed in `s` exactly once, and nothing else. */
  ghost predicate Once(c: seq<int>, s: seq<int>) {
    forall v :: multiset(c)[v] == if v in s then 1 else 0
  }

  /** The values of `s` that `c` does not hold yet. */
  ghost function NewIn(s: seq<int>, c: seq<int>): set<int> {
    set v | v in s && v !in c
  }

  /** A sequence without duplicates holds every value at most once. */
  lemma {:induction false} NoDupCounts(s: seq<int>)
    requires NoDup(s)
    ensures forall v :: multiset(s)[v] <= 1
  {
    if s != [] {
      var u := s[1..];
      assert NoDup(u) by {
        forall a, b | 0 <= a < b < |u| ensures u[a] != u[b] {
          assert u[a] == s[a + 1] && u[b] == s[b + 1];
        }
      }
      NoDupCounts(u);
      assert s[0] !in u by {
        forall k | 0 <= k < |u| ensures u[k] != s[0] {
          assert u[k] == s[k + 1];
        }
      }
      assert s == [s[0]] + u;
      assert multiset(s) == multiset{s[0]} + multiset(u);
    }
  }

  /** A sequence holding every value at most once has no duplicates. */
  lemma CountsNoDup(s: seq<int>)
    requires forall v :: multiset(s)[v] <= 1
    ensures NoDup(s)
  {
    forall a, b | 0 <= a < b < |s| ensures s[a] != s[b] {
      assert s == s[..a] + [s[a]] + s[a + 1..b] + [s[b]] + s[b + 1..];
      assert multiset{s[a], s[b]} <= multiset(s);
    }
  }

  /**
   * Removing position `k` of a duplicate-free sequence removes one copy of
   * `c[k]`, leaves no copy of it behind and no duplicate either.
   */
  lemma DropOne(c: seq<int>, k: nat)
    requires k < |c| && NoDup(c)
    ensures NoDup(c[..k] + c[k + 1..])
    ensures multiset(c[..k] + c[k + 1..]) == multiset(c) - multiset{c[k]}
    ensures c[k] !in c[..k] + c[k + 1..]
  {
    var d := c[..k] + c[k + 1..];
    assert c == c[..k] + [c[k]] + c[k + 1..];
    assert multiset(c) == multiset(d) + multiset{c[k]};
    NoDupCounts(c);
    assert forall v :: multiset(d)[v] <= multiset(c)[v];
    CountsNoDup(d);
  }

  /** The facts about the traversal of `s` that erasing the range from `bp` to `ep` starts from. */
  lemma RangeEnds(s: Tree, bp: Ptr, ep: Ptr)
    requires (bp == Null || bp in Ids(s)) && (ep == Null || ep in Ids(s))
    ensures |Order(s)| == |Contents(s)|
    ensures bp == At(Order(s), Position(Order(s), bp)) && ep == At(Order(s), Position(Order(s), ep))
  {
    OrderContents(s);
  }

  /** Two positions of a traversal of distinct nodes that hold the same node are one. */
  lemma RangeExit(s: Tree, k: nat, pe: nat)
    requires Distinct(s) && k <= pe <= |Order(s)| && At(Order(s), k) == At(Order(s), pe)
    ensures k == pe
  {
    OrderDistinct(s);
  }

  /**
   * One step of erasing the range `[pb, pe)` of the traversal `o0` of a set:
   * once the erases have reached position `k` of `o0`, the traversal `cur`
   * has lost `o0[pb..k]`, the iterator stands at position `pb`, the erase is
   * allowed, and the end of the range `q` stays in the traversal.
   */
  lemma CutStep(o0: seq<nat>, pb: nat, pe: nat, k: nat, q: Ptr, cur: seq<nat>)
    requires NoDup(cur) && pb <= k < pe <= |o0| && pe - pb < |o0|
    requires q == At(o0, pe) && cur == o0[..pb] + o0[k..]
    ensures |cur| != 1 && pb < |cur| && cur[pb] == o0[k] && Position(cur, cur[pb]) == pb
    ensures cur[..pb] + cur[pb + 1..] == o0[..pb] + o0[k + 1..]
    ensures At(cur, pb + 1) == At(o0, k + 1)
    ensures q == Null || q in cur[..pb] + cur[pb + 1..]
  {
    assert cur[..pb] == o0[..pb];
    assert cur[pb + 1..] == o0[k + 1..];
    if q != Null {
      assert pe < |o0| && o0[pe] == q;
      assert (o0[..pb] + o0[k + 1..])[pb + pe - k - 1] == q;
    }
  }

  /**
   * Cutting the addresses `[pb, pe)` out of a traversal, with every cell's
   * value left alone, cuts the same stretch out of the values.
   */
  lemma KeptValues(s0: Tree, n0: seq<BNode>, s1: Tree, n1: seq<BNode>, pb: nat, pe: nat)
    requires Linked(s0, Null, n0) && Linked(s1, Null, n1) && Payload(n1) == Payload(n0)
    requires pb <= pe <= |Order(s0)| == |Contents(s0)| && Order(s1) == Order(s0)[..pb] + Order(s0)[pe..]
    ensures Contents(s1) == Contents(s0)[..pb] + Contents(s0)[pe..]
  {
    LinkedData(s0, Null, n0);
    LinkedData(s1, Null, n1);
    var c := Contents(s0)[..pb] + Contents(s0)[pe..];
    forall k | 0 <= k < |c|
      ensures Contents(s1)[k] == c[k]
    {
      if k < pb {
        assert Order(s1)[k] == Order(s0)[k];
      } else {
        assert Order(s1)[k] == Order(s0)[k - pb + pe];
      }
    }
  }

  /**
   * One step of inserting a list: a unique insert of `il[i]` into contents
   * holding the old values `c0` and the first `i` listed ones, each once,
   * adds `il[i]` exactly when it is new.
   */
  lemma InsertListStep(c0: seq<int>, cur: seq<int>, nxt: seq<int>, il: seq<int>, i: nat, inserted: bool)
    requires i < |il|
    requires Once(cur, c0 + il[..i])
    requires |cur| == |c0| + |NewIn(il[..i], c0)|
    requires inserted <==> il[i] !in cur
    requires inserted ==> multiset(nxt) == multiset(cur) + multiset{il[i]}
    requires !inserted ==> nxt == cur
    ensures Once(nxt, c0 + il[..i + 1])
    ensures |nxt| == |c0| + |NewIn(il[..i + 1], c0)|
    ensures NoDup(nxt)
  {
    var x := il[i];
    assert il[..i + 1] == il[..i] + [x];
    assert multiset(cur)[x] == if x in c0 + il[..i] then 1 else 0;
    assert x in cur <==> multiset(cur)[x] > 0;
    if inserted {
      assert x !in c0 && x !in il[..i];
      assert NewIn(il[..i + 1], c0) == NewIn(il[..i], c0) + {x};
      assert |multiset(nxt)| == |multiset(cur)| + 1;
    } else {
      assert x in c0 || x in il[..i];
      assert NewIn(il[..i + 1], c0) == NewIn(il[..i], c0);
    }
    CountsNoDup(nxt);
  }

  /** `custom::set<T>`: its only field is the tree. */
  class Set {
    const bst: BST

    /** The tree is valid and holds no value twice. */
    ghost predicate Valid()
      reads this, bst
    {
      bst.Valid() && NoDup(Elements())
    }

    /** The values in the order the iterator visits them, one per node. */
    ghost function Elements(): (c: seq<int>)
      reads this, bst
      ensures |c| == |Order(bst.shape)|
    {
      OrderContents(bst.shape);
      Contents(bst.shape)
    }

    /** The position of `i` in the traversal, `Size()` for `end()`. */
    ghost function Pos(i: SetIterator): nat
      reads this, bst
    {
      Position(Order(bst.shape), i.it.pNode)
    }

    /** `set()`: the empty set. */
    constructor ()
      ensures Valid() && Elements() == [] && fresh(bst)
    {
      bst := new BST();
    }

    /** `set(const set&)`: a copy of the tree of `rhs`. */
    constructor Copy(rhs: Set)
      requires rhs.Valid()
      ensures Valid() && Elements() == rhs.Elements() && fresh(bst)
      ensures Strip(bst.shape) == Strip(rhs.bst.shape)
    {
      bst := new BST.Copy(rhs.bst);
    }

    /** `set(set&&)`: takes over the tree of `rhs`, which is left empty. */
    constructor Move(rhs: Set)
      requires rhs.Valid()
      modifies rhs.bst
      ensures Valid() && rhs.Valid() && fresh(bst)
      ensures Elements() == old(rhs.Elements()) && rhs.Elements() == []
    {
      bst := new BST.Move(rhs.bst);
    }

    /** `set(initializer_list)`: the empty set, then `insert(il)`. */
    constructor FromList(il: seq<int>)
      ensures Valid() && fresh(bst)
      ensures Once(Elements(), il)
    {
      bst := new BST();
      new;
      InsertList(il);
      assert [] + il == il;
    }

    /** `operator=(const set&)`: copy-assign the tree. */
    method CopyAssign(rhs: Set)
      requires Valid() && rhs.Valid()
      modifies bst
      ensures Valid() && Elements() == old(rhs.Elements())
      ensures Strip(bst.shape) == Strip(old(rhs.bst.shape))
    {
      bst.CopyAssign(rhs.bst);
    }

    /** `operator=(set&&)`: move-assign the tree; `rhs` ends up empty. */
    method MoveAssign(rhs: Set)
      requires Valid() && rhs.Valid()
      modifies bst, rhs.bst
      ensures Valid() && rhs.Valid() && rhs.Elements() == []
      ensures rhs.bst != bst ==> Elements() == old(rhs.Elements())
    {
      bst.MoveAssign(rhs.bst);
    }

    /** `operator=(initializer_list)`: the set holds exactly the listed values. */
    method AssignList(il: seq<int>)
      requires Valid()
      modifies bst
      ensures Valid() && Once(Elements(), il)
    {
      bst.AssignList(il);
      CountsNoDup(Elements());
    }

    /** `swap(rhs)`: exchange the two trees' contents. */
    method Swap(rhs: Set)
      requires Valid() && rhs.Valid()
      modifies bst, rhs.bst
      ensures Valid() && rhs.Valid()
      ensures Elements() == old(rhs.Elements()) && rhs.Elements() == old(Elements())
    {
      bst.Swap(rhs.bst);
    }

    /** `begin()`: the tree's `begin()`, the smallest value. */
    method Begin() returns (r: SetIterator)
      requires Valid()
      ensures r.it.pNode == At(Order(bst.shape), 0) && Pos(r) == 0
    {
      var it := bst.Begin();
      r := SetIterator(it);
    }

    /** `end()`: the tree's `end()`. */
    function End(): (r: SetIterator)
      ensures r.it.pNode == Null
    {
      SetIterator(Bst.End())
    }

    /** `find(t)`: the tree's `find`, `end()` exactly when `t` is absent. */
    method Find(t: int) returns (r: SetIterator)
      requires Valid()
      ensures r.it.pNode == Null <==> t !in Elements()
      ensures r.it.pNode != Null ==> r.it.pNode in Ids(bst.shape) && Deref(r) == t
    {
      var it := bst.Find(t);
      r := SetIterator(it);
    }

    /** `empty()`. */
    function Empty(): (b: bool)
      reads this, bst
      requires Valid()
      ensures b <==> Elements() == []
    {
      bst.Empty()
    }

    /** `size()`: the number of values, each counted once. */
    function Size(): (n: nat)
      reads this, bst
      requires Valid()
      ensures n == |Elements()| && n == |Order(bst.shape)|
    {
      bst.Size()
    }

    /** `*it`: the tree iterator's value, the value at the iterator's place in the traversal. */
    function Deref(i: SetIterator): (v: int)
      reads this, bst
      requires Valid() && bst.Points(i.it) && i.it.pNode != Null
      ensures v in Elements()
      ensures forall k | 0 <= k < |Order(bst.shape)| && Order(bst.shape)[k] == i.it.pNode :: v == Elements()[k]
    {
      bst.Deref(i.it)
    }

    /** Prefix `++it`: the tree iterator's `++`, the next position in the traversal. */
    method Increment(i: SetIterator) returns (r: SetIterator)
      requires Valid() && bst.Points(i.it)
      ensures bst.Points(r.it)
      ensures i.it.pNode == Null ==> r.it.pNode == Null
      ensures forall k | 0 <= k < |Order(bst.shape)| && Order(bst.shape)[k] == i.it.pNode ::
        r.it.pNode == At(Order(bst.shape), k + 1)
    {
      var it := bst.Increment(i.it);
      r := SetIterator(it);
      bst.StepSpec(i.it, R);
    }

    /** Prefix `--it`: the tree iterator's `--`, the previous position in the traversal. */
    method Decrement(i: SetIterator) returns (r: SetIterator)
      requires Valid() && bst.Points(i.it)
      ensures bst.Points(r.it)
      ensures i.it.pNode == Null ==> r.it.pNode == Null
      ensures forall k | 0 <= k < |Order(bst.shape)| && Order(bst.shape)[k] == i.it.pNode ::
        r.it.pNode == if k > 0 then Order(bst.shape)[k - 1] else Null
    {
      var it := bst.Decrement(i.it);
      r := SetIterator(it);
      bst.StepSpec(i.it, L);
    }

    /**
     * `insert(t)`: the tree's insert with `keepUnique`.  The flag says
     * whether `t` was new; `t` is then held exactly once either way.
     */
    method Insert(t: int) returns (r: SetIterator, inserted: bool)
      requires Valid()
      modifies bst
      ensures Valid()
      ensures inserted <==> t !in old(Elements())
      ensures inserted ==> multiset(Elements()) == multiset(old(Elements())) + multiset{t}
      ensures !inserted ==> unchanged(bst)
      ensures r.it.pNode in Ids(bst.shape) && Deref(r) == t
    {
      var it, ins := bst.Insert(t, true);
      r, inserted := SetIterator(it), ins;
      NoDupCounts(old(Elements()));
      CountsNoDup(Elements());
    }

    /**
     * `insert(il)`: insert each listed value in turn.  The set then holds
     * its old values and the listed ones, each once, and grew by the number
     * of listed values it did not hold.
     */
    method InsertList(il: seq<int>)
      requires Valid()
      modifies bst
      ensures Valid()
      ensures Once(Elements(), old(Elements()) + il)
      ensures |Elements()| == |old(Elements())| + |NewIn(il, old(Elements()))|
    {
      ghost var c0 := Elements();
      NoDupCounts(c0);
      assert NewIn(il[..0], c0) == {} && c0 + il[..0] == c0;
      for i := 0 to |il|
        invariant Valid()
        invariant Once(Elements(), c0 + il[..i])
        invariant |Elements()| == |c0| + |NewIn(il[..i], c0)|
      {
        ghost var cur := Elements();
        var _, inserted := bst.Insert(il[i], true);
        InsertListStep(c0, cur, Elements(), il, i, inserted);
      }
      assert il[..|il|] == il;
    }

    /** `clear()`: the empty set; clearing an empty set changes nothing. */
    method Clear()
      requires Valid()
      modifies bst
      ensures Valid() && Elements() == []
      ensures old(Elements()) == [] ==> unchanged(bst)
    {
      bst.Clear();
    }

    /**
     * `erase(it)`: the tree's erase; the iterator becomes, and the result
     * is, the next position.  Erasing the last remaining value is excluded:
     * the tree's erase dereferences null there.
     */
    method EraseIt(i: SetIterator) returns (r: SetIterator)
      requires Valid() && bst.Points(i.it)
      requires i.it.pNode != Null ==> Size() != 1
      modifies bst
      ensures Valid() && bst.Points(r.it)
      ensures i.it.pNode == Null ==> r.it.pNode == Null && unchanged(bst)
      ensures i.it.pNode != Null ==> old(Pos(i) < |Order(bst.shape)|)
      ensures i.it.pNode != Null ==>
        Order(bst.shape) == old(Order(bst.shape)[..Pos(i)] + Order(bst.shape)[Pos(i) + 1..])
      ensures i.it.pNode != Null ==> Elements() == old(Elements()[..Pos(i)] + Elements()[Pos(i) + 1..])
      ensures i.it.pNode != Null ==> r.it.pNode == old(At(Order(bst.shape), Pos(i) + 1))
      ensures Payload(bst.nodes) == old(Payload(bst.nodes))
    {
      ghost var s0 := bst.shape;
      ghost var k := Pos(i);
      OrderContents(s0);
      var next := bst.Erase(i.it);
      r := SetIterator(next);
      if i.it.pNode != Null {
        assert Order(s0)[k] == i.it.pNode;
        DropOne(Contents(s0), k);
      }
    }

    /**
     * `erase(t)`: find `t`; if found, erase it and answer 1, else answer 0
     * and change nothing.  Either way `t` is absent afterwards.  Erasing
     * the only value is excluded, as for `EraseIt`.
     */
    method EraseValue(t: int) returns (n: nat)
      requires Valid() && Elements() != [t]
      modifies bst
      ensures Valid() && t !in Elements()
      ensures n == if t in old(Elements()) then 1 else 0
      ensures multiset(Elements()) == multiset(old(Elements())) - multiset{t}
      ensures n == 0 ==> unchanged(bst)
    {
      var it := Find(t);
      if it == End() {
        assert multiset(Elements())[t] == 0;
        return 0;
      }
      ghost var c0, o := Elements(), Order(bst.shape);
      ghost var k := Pos(it);
      assert it.it.pNode in o by {
        OrderContents(bst.shape);
      }
      assert k < |o| && o[k] == it.it.pNode;
      assert c0[k] == t;
      assert |c0| == 1 ==> c0 == [t];
      var _ := EraseIt(it);
      DropOne(c0, k);
      return 1;
    }

    /**
     * `erase(itBegin, itEnd)`: erase from `itBegin` until reaching `itEnd`.
     * The set loses the values from the position of `itBegin` up to, not
     * including, that of `itEnd`, and the result equals `itEnd`, whose node
     * survives because erase moves no value between nodes.  The range must
     * not start after its end, and must not take every value of a
     * non-empty set: the last erase would then remove the only node.
     */
    method EraseRange(b: SetIterator, e: SetIterator) returns (r: SetIterator)
      requires Valid() && bst.Points(b.it) && bst.Points(e.it)
      requires Pos(b) <= Pos(e)
      requires Pos(b) == Pos(e) || Pos(e) - Pos(b) < Size()
      modifies bst
      ensures Valid() && r == e
      ensures Order(bst.shape) == old(Order(bst.shape)[..Pos(b)] + Order(bst.shape)[Pos(e)..])
      ensures Elements() == old(Elements()[..Pos(b)] + Elements()[Pos(e)..])
    {
      ghost var s0, n0 := bst.shape, bst.nodes;
      ghost var pb, pe := Pos(b), Pos(e);
      RangeEnds(s0, b.it.pNode, e.it.pNode);
      r := EraseStretch(b, e, Order(s0), pb, pe);
      KeptValues(s0, n0, bst.shape, bst.nodes, pb, pe);
    }

    /**
     * The loop of `EraseRange` over the traversal `o0` it starts from:
     * erase at the iterator until it equals `e`, at position `pe`.
     */
    method EraseStretch(b: SetIterator, e: SetIterator, ghost o0: seq<nat>, ghost pb: nat, ghost pe: nat)
      returns (r: SetIterator)
      requires Valid() && Order(bst.shape) == o0 && pb <= pe <= |o0| && (pb == pe || pe - pb < |o0|)
      requires b == SetIterator(Iterator(At(o0, pb))) && e == SetIterator(Iterator(At(o0, pe)))
      modifies bst
      ensures Valid() && r == e && Order(bst.shape) == o0[..pb] + o0[pe..]
      ensures Payload(bst.nodes) == old(Payload(bst.nodes))
    {
      ghost var s0 := bst.shape;
      ghost var pl := Payload(bst.nodes);
      assert o0 == o0[..pb] + o0[pb..];
      r := b;
      ghost var k := pb;
      while r != e
        invariant Valid() && pb <= k <= pe
        invariant Order(bst.shape) == o0[..pb] + o0[k..]
        invariant Payload(bst.nodes) == pl
        invariant r == SetIterator(Iterator(At(o0, k)))
        decreases pe - k
      {
        r := EraseNextIn(r, o0, pb, pe, k, e.it.pNode);
        k := k + 1;
      }
      RangeExit(s0, k, pe);
    }

    /**
     * One erase of `EraseRange`: the iterator at position `k` of the
     * original traversal `o0` (position `pb` of the current one) is erased
     * and the next one is answered.
     */
    method EraseNextIn(r: SetIterator, ghost o0: seq<nat>, ghost pb: nat, ghost pe: nat, ghost k: nat, ghost q: Ptr)
      returns (next: SetIterator)
      requires Valid() && pb <= k < pe <= |o0| && pe - pb < |o0| && q == At(o0, pe)
      requires Order(bst.shape) == o0[..pb] + o0[k..] && r == SetIterator(Iterator(At(o0, k)))
      modifies bst
      ensures Valid() && Order(bst.shape) == o0[..pb] + o0[k + 1..] && next == SetIterator(Iterator(At(o0, k + 1)))
      ensures Payload(bst.nodes) == old(Payload(bst.nodes))
    {
      ghost var cur := Order(bst.shape);
      OrderDistinct(bst.shape);
      CutStep(o0, pb, pe, k, q, cur);
      assert bst.Points(r.it) by {
        OrderContents(bst.shape);
      }
      assert Pos(r) == pb;
      next := EraseIt(r);
      assert Order(bst.shape) == cur[..pb] + cur[pb + 1..];
    }
  }
}
