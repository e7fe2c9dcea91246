/** Walking over a red-black tree in order, along its child and parent pointers. */
module RbWalk {
  import opened RbTree
  import opened RbHeap

  /** What the cells say about the focus: its children, its parent, and which child it is. */
  lemma Surroundings(m: Mem, root: Ptr, o: seq<Ptr>, c: Ctx<Ptr>, t: Tree<Ptr>)
    requires At(m, root, o, c, t) && t.Node?
    ensures t.item != NULL && t.item in m && m[t.item].left == RootPtr(t.left) && m[t.item].right == RootPtr(t.right)
    ensures m[t.item].parent == CtxPtr(c) && CtxPtr(c) != t.item
    ensures t.left.Node? ==> t.left.item != NULL
    ensures t.right.Node? ==> t.right.item != NULL
    ensures !c.Top? ==> c.item != NULL && c.item in m
    ensures !c.Top? ==> (c.InRight? <==> m[c.item].right == t.item) && (c.InLeft? <==> m[c.item].left == t.item)
  {
    assert Holds(m, t.left, t.item) && Holds(m, t.right, t.item);
  }

  /** The focus of a cell, and the cells up to and including it. */
  ghost predicate Upto(o: seq<Ptr>, c: Ctx<Ptr>, t: Tree<Ptr>, i: nat) {
    t.Node? && i < |o| && o[i] == t.item && o[..i] == Before(c) + InOrder(t.left)
      && o[i + 1..] == InOrder(t.right) + After(c)
  }

  lemma UptoIs(o: seq<Ptr>, c: Ctx<Ptr>, t: Tree<Ptr>)
    requires Before(c) + InOrder(t) + After(c) == o && t.Node?
    ensures Upto(o, c, t, |Before(c) + InOrder(t.left)|)
  {
    hide Before, After;
    Around(Before(c), InOrder(t.left), t.item, InOrder(t.right), After(c));
  }

  lemma Around(a: seq<Ptr>, b: seq<Ptr>, x: Ptr, d: seq<Ptr>, e: seq<Ptr>)
    ensures var o := a + (b + [x] + d) + e;
            var i := |a + b|;
            o[..i] == a + b && o[i] == x && o[i + 1..] == d + e
  {
    assert a + (b + [x] + d) + e == (a + b) + [x] + (d + e);
  }

  /** From a cell that comes first among the cells of its subtree. */
  lemma DownLeft(m: Mem, root: Ptr, o: seq<Ptr>, c: Ctx<Ptr>, t: Tree<Ptr>)
    requires At(m, root, o, c, t) && t.Node?
    ensures At(m, root, o, InLeft(t.item, t.color, t.right, c), t.left)
    ensures Before(InLeft(t.item, t.color, t.right, c)) == Before(c)
  {
    ZoomLeft(m, root, o, c, t.left, t.item, t.color, t.right);
  }

  lemma DownRight(m: Mem, root: Ptr, o: seq<Ptr>, c: Ctx<Ptr>, t: Tree<Ptr>)
    requires At(m, root, o, c, t) && t.Node?
    ensures At(m, root, o, InRight(t.left, t.item, t.color, c), t.right)
    ensures Before(InRight(t.left, t.item, t.color, c)) == Before(c) + InOrder(t.left) + [t.item]
    ensures After(InRight(t.left, t.item, t.color, c)) == After(c)
  {
    ZoomRight(m, root, o, c, t.left, t.item, t.color, t.right);
  }

  lemma ShapeOrder(m: Mem, root: Ptr, o: seq<Ptr>, c: Ctx<Ptr>, t: Tree<Ptr>)
    requires At(m, root, o, c, t)
    ensures Before(c) + InOrder(t) + After(c) == o
  {
  }

  /** The leftmost cell below the focus. */
  method Leftmost(f: Forest, node: Ptr, r: nat, ghost o: seq<Ptr>, ghost c: Ctx<Ptr>, ghost t: Tree<Ptr>)
    returns (n: Ptr, ghost c': Ctx<Ptr>, ghost t': Tree<Ptr>)
    requires r < |f.roots| && At(f.mem, f.roots[r], o, c, t) && t.Node? && t.item == node
    ensures At(f.mem, f.roots[r], o, c', t') && t'.Node? && t'.item == n && n != NULL
    ensures Upto(o, c', t', |Before(c)|)
  {
    hide At, Upto, Before;
    n, c', t' := node, c, t;
    Surroundings(f.mem, f.roots[r], o, c', t');
    while f.mem[n].left != NULL
      invariant At(f.mem, f.roots[r], o, c', t') && t'.Node? && t'.item == n && Before(c') == Before(c)
      invariant n != NULL && n in f.mem && f.mem[n].left == RootPtr(t'.left)
      decreases t'
    {
      DownLeft(f.mem, f.roots[r], o, c', t');
      c', t' := InLeft(n, t'.color, t'.right, c'), t'.left;
      n := f.mem[n].left;
      Surroundings(f.mem, f.roots[r], o, c', t');
    }
    Surroundings(f.mem, f.roots[r], o, c', t');
    ShapeOrder(f.mem, f.roots[r], o, c', t');
    UptoIs(o, c', t');
    assert Before(c') + InOrder<Ptr>(Leaf) == Before(c');
  }

  /** The first cell in order. */
  method First(f: Forest, r: nat, ghost o: seq<Ptr>, ghost t: Tree<Ptr>)
    returns (n: Ptr, ghost c': Ctx<Ptr>, ghost t': Tree<Ptr>)
    requires r < |f.roots| && At(f.mem, f.roots[r], o, Top, t)
    ensures n == NULL <==> o == []
    ensures o != [] ==> n == o[0] && At(f.mem, f.roots[r], o, c', t') && Upto(o, c', t', 0)
  {
    n, c', t' := f.roots[r], Top, t;
    if n == NULL {
      RootNull(f.mem, f.roots[r], o, t);
      return;
    }
    n, c', t' := Leftmost(f, n, r, o, Top, t);
  }

  lemma RootNull(m: Mem, root: Ptr, o: seq<Ptr>, t: Tree<Ptr>)
    requires At(m, root, o, Top, t) && root == NULL
    ensures o == []
  {
  }

  /** The cell after the given one. */
  method Next(f: Forest, node: Ptr, r: nat, ghost o: seq<Ptr>, ghost c: Ctx<Ptr>, ghost t: Tree<Ptr>, ghost i: nat)
    returns (n: Ptr, ghost c': Ctx<Ptr>, ghost t': Tree<Ptr>)
    requires r < |f.roots| && At(f.mem, f.roots[r], o, c, t) && Upto(o, c, t, i) && t.item == node
    ensures n == NULL <==> i + 1 == |o|
    ensures n != NULL ==> n == o[i + 1] && At(f.mem, f.roots[r], o, c', t') && Upto(o, c', t', i + 1)
  {
    hide At, Before, After;
    Surroundings(f.mem, f.roots[r], o, c, t);
    n, c', t' := NULL, c, t;
    if f.mem[node].parent == node {
      assert false;
    }
    if f.mem[node].right != NULL {
      DownRight(f.mem, f.roots[r], o, c, t);
      n, c', t' := Leftmost(f, f.mem[node].right, r, o, InRight(t.left, node, t.color, c), t.right);
      return;
    }
    n, c', t' := Climb(f, node, r, o, c, t, i);
  }

  /** Climbs until the cell come from is a left child. */
  method Climb(f: Forest, node: Ptr, r: nat, ghost o: seq<Ptr>, ghost c: Ctx<Ptr>, ghost t: Tree<Ptr>, ghost i: nat)
    returns (parent: Ptr, ghost c': Ctx<Ptr>, ghost t': Tree<Ptr>)
    requires r < |f.roots| && At(f.mem, f.roots[r], o, c, t) && Upto(o, c, t, i) && t.item == node && t.right.Leaf?
    ensures parent == NULL <==> i + 1 == |o|
    ensures parent != NULL ==> parent == o[i + 1] && At(f.mem, f.roots[r], o, c', t') && Upto(o, c', t', i + 1)
  {
    hide At, Upto, Before, After;
    var n := node;
    ghost var up, w := c, t;
    Reached(o, c, t, i);
    Surroundings(f.mem, f.roots[r], o, c, t);
    parent := f.mem[n].parent;
    while parent != NULL && n == f.mem[parent].right
      invariant At(f.mem, f.roots[r], o, up, w) && w.Node? && w.item == n && o[i + 1..] == After(up)
      invariant parent == CtxPtr(up)
      invariant !up.Top? ==> parent != NULL && parent in f.mem && (up.InRight? <==> f.mem[parent].right == n)
      decreases up
    {
      Zoom(f.mem, f.roots[r], o, up, w);
      SameAfter(up);
      n := parent;
      up, w := up.up, Wrap(up, w);
      Surroundings(f.mem, f.roots[r], o, up, w);
      parent := f.mem[n].parent;
    }
    c', t' := up, w;
    if parent == NULL {
      TopAfter(up);
    } else {
      Zoom(f.mem, f.roots[r], o, up, w);
      c', t' := up.up, Wrap(up, w);
      ShapeOrder(f.mem, f.roots[r], o, c', t');
      UptoIs(o, c', t');
      NextPlace(o, up, w, i);
    }
  }

  lemma Reached(o: seq<Ptr>, c: Ctx<Ptr>, t: Tree<Ptr>, i: nat)
    requires Upto(o, c, t, i) && t.right.Leaf?
    ensures t.Node? && i < |o| && o[i + 1..] == After(c)
  {
    assert InOrder(t.right) + After(c) == After(c);
  }

  lemma SameAfter(c: Ctx<Ptr>)
    requires c.InRight?
    ensures After(c.up) == After(c)
  {
  }

  lemma TopAfter(c: Ctx<Ptr>)
    requires c.Top?
    ensures After(c) == []
  {
  }

  lemma NextPlace(o: seq<Ptr>, c: Ctx<Ptr>, w: Tree<Ptr>, i: nat)
    requires c.InLeft? && i < |o| && o[i + 1..] == After(c) && Upto(o, c.up, Wrap(c, w), |Before(c.up) + InOrder(w)|)
    ensures i + 1 < |o| && o[i + 1] == c.item && Upto(o, c.up, Wrap(c, w), i + 1)
  {
    var j := |Before(c.up) + InOrder(w)|;
    assert |o| == j + 1 + |InOrder(c.right) + After(c.up)|;
    assert |After(c)| == 1 + |InOrder(c.right) + After(c.up)|;
  }

  /** Iterating from the first cell on visits every cell, in order. */
  method Iterate(f: Forest, r: nat, ghost o: seq<Ptr>, ghost t: Tree<Ptr>) returns (s: seq<Ptr>)
    requires r < |f.roots| && At(f.mem, f.roots[r], o, Top, t)
    ensures s == o
  {
    hide At;
    s := [];
    var n;
    ghost var c, u;
    n, c, u := First(f, r, o, t);
    while n != NULL
      invariant |s| <= |o| && s == o[..|s|] && (n == NULL <==> |s| == |o|)
      invariant n != NULL ==> n == o[|s|] && At(f.mem, f.roots[r], o, c, u) && Upto(o, c, u, |s|)
      decreases |o| - |s|
    {
      ghost var i := |s|;
      s := s + [n];
      n, c, u := Next(f, n, r, o, c, u, i);
    }
  }
}
