/** Rebalancing after an insertion. */
module RbInsert {
  import opened RbTree
  import opened RbHeap

  function Depth(c: Ctx<Ptr>): nat {
    if c.Top? then 0 else 1 + Depth(c.up)
  }

  /** The tree `p` and its sibling `u` under `g`, with `p` on the left or on the right. */
  function Family(left: bool, p: Tree<Ptr>, g: Ptr, k: Color, u: Tree<Ptr>): Tree<Ptr> {
    if left then Node(p, g, k, u) else Node(u, g, k, p)
  }

  /** Both children of a black cell are red: they become black and the cell red. */
  method Recolor(f: Forest, parent: Ptr, uncle: Ptr, gparent: Ptr, r: nat, left: bool, ghost o: seq<Ptr>,
                 ghost up: Ctx<Ptr>, ghost p: Tree<Ptr>, ghost u: Tree<Ptr>)
    requires r < |f.roots| && p.Node? && p.item == parent && u.Node? && u.item == uncle
    requires At(f.mem, f.roots[r], o, up, Family(left, p, gparent, Black, u))
    modifies f
    ensures f.Only(r, o)
    ensures At(f.mem, f.roots[r], o, up, Family(left, Blacken(p), gparent, Red, Blacken(u)))
  {
    if left {
      ZoomRight(f.mem, f.roots[r], o, up, p, gparent, Black, u);
      f.SetColor(uncle, Black, r, o, InRight(p, gparent, Black, up), u);
      ZoomRight(f.mem, f.roots[r], o, up, p, gparent, Black, Blacken(u));
      ZoomLeft(f.mem, f.roots[r], o, up, p, gparent, Black, Blacken(u));
      f.SetColor(parent, Black, r, o, InLeft(gparent, Black, Blacken(u), up), p);
      ZoomLeft(f.mem, f.roots[r], o, up, Blacken(p), gparent, Black, Blacken(u));
    } else {
      ZoomLeft(f.mem, f.roots[r], o, up, u, gparent, Black, p);
      f.SetColor(uncle, Black, r, o, InLeft(gparent, Black, p, up), u);
      ZoomLeft(f.mem, f.roots[r], o, up, Blacken(u), gparent, Black, p);
      ZoomRight(f.mem, f.roots[r], o, up, Blacken(u), gparent, Black, p);
      f.SetColor(parent, Black, r, o, InRight(Blacken(u), gparent, Black, up), p);
      ZoomRight(f.mem, f.roots[r], o, up, Blacken(u), gparent, Black, Blacken(p));
    }
    f.SetColor(gparent, Red, r, o, up, Family(left, Blacken(p), gparent, Black, Blacken(u)));
  }

  /** The outer-child case on the left: recolour and rotate the grandparent right. */
  method OuterLeft(f: Forest, parent: Ptr, gparent: Ptr, r: nat, ghost o: seq<Ptr>, ghost up: Ctx<Ptr>,
                   ghost t: Tree<Ptr>, ghost s: Tree<Ptr>, ghost u: Tree<Ptr>)
    requires r < |f.roots|
    requires At(f.mem, f.roots[r], o, InLeft(parent, Red, s, InLeft(gparent, Black, u, up)), t)
    modifies f
    ensures f.Only(r, o)
    ensures At(f.mem, f.roots[r], o, InLeft(parent, Black, Node(s, gparent, Red, u), up), t)
  {
    ZoomLeft(f.mem, f.roots[r], o, InLeft(gparent, Black, u, up), t, parent, Red, s);
    f.SetColor(parent, Black, r, o, InLeft(gparent, Black, u, up), Node(t, parent, Red, s));
    ZoomLeft(f.mem, f.roots[r], o, up, Node(t, parent, Black, s), gparent, Black, u);
    f.SetColor(gparent, Red, r, o, up, Node(Node(t, parent, Black, s), gparent, Black, u));
    f.RotateRight(gparent, r, o, up, t, parent, Black, s, Red, u);
    ZoomLeft(f.mem, f.roots[r], o, up, t, parent, Black, Node(s, gparent, Red, u));
  }

  method OuterRight(f: Forest, parent: Ptr, gparent: Ptr, r: nat, ghost o: seq<Ptr>, ghost up: Ctx<Ptr>,
                    ghost t: Tree<Ptr>, ghost s: Tree<Ptr>, ghost u: Tree<Ptr>)
    requires r < |f.roots|
    requires At(f.mem, f.roots[r], o, InRight(s, parent, Red, InRight(u, gparent, Black, up)), t)
    modifies f
    ensures f.Only(r, o)
    ensures At(f.mem, f.roots[r], o, InRight(Node(u, gparent, Red, s), parent, Black, up), t)
  {
    ZoomRight(f.mem, f.roots[r], o, InRight(u, gparent, Black, up), s, parent, Red, t);
    f.SetColor(parent, Black, r, o, InRight(u, gparent, Black, up), Node(s, parent, Red, t));
    ZoomRight(f.mem, f.roots[r], o, up, u, gparent, Black, Node(s, parent, Black, t));
    f.SetColor(gparent, Red, r, o, up, Node(u, gparent, Black, Node(s, parent, Black, t)));
    f.RotateLeft(gparent, r, o, up, u, Red, s, parent, Black, t);
    ZoomRight(f.mem, f.roots[r], o, up, Node(u, gparent, Red, s), parent, Black, t);
  }

  /** The loop invariant: `t`, headed by the red cell `node`, is balanced on its own and fits its
      context, except that the cell above may be red as well. */
  ghost predicate Pending(m: Mem, root: Ptr, o: seq<Ptr>, c: Ctx<Ptr>, t: Tree<Ptr>, h: nat) {
    At(m, root, o, c, t) && IsRed(t) && Balanced(t, h) && BalancedCtx(c, h)
  }

  /** What the cells say about the parent and grandparent of `node`. */
  lemma ReadFamily(m: Mem, root: Ptr, o: seq<Ptr>, c: Ctx<Ptr>, t: Tree<Ptr>, h: nat)
    requires Pending(m, root, o, c, t, h)
    ensures t.item in m && m[t.item].parent == CtxPtr(c)
    ensures !c.Top? ==> c.item != NULL && c.item in m && m[c.item].color == c.color && m[c.item].parent == CtxPtr(c.up)
    ensures !c.Top? ==> (c.InRight? <==> m[c.item].right == t.item)
    ensures !c.Top? ==> (c.InLeft? <==> m[c.item].left == t.item)
    ensures CtxRed(c) ==> !c.up.Top? && c.up.item in m && c.up.color.Black? && c.up.item != NULL
    ensures CtxRed(c) ==> (c.up.InLeft? <==> m[c.up.item].left == c.item)
    ensures CtxRed(c) && c.up.InLeft? ==> m[c.up.item].right == RootPtr(c.up.right) && Colored(m, c.up.right)
    ensures CtxRed(c) && c.up.InRight? ==> m[c.up.item].left == RootPtr(c.up.left) && Colored(m, c.up.left)
  {
    if !c.Top? {
      assert HoldsCtx(m, root, c.up, c.item);
      if c.up.InLeft? {
        assert Holds(m, c.up.right, c.up.item);
      } else if c.up.InRight? {
        assert Holds(m, c.up.left, c.up.item);
      }
    }
  }

  ghost predicate Colored(m: Mem, t: Tree<Ptr>) {
    t.Node? ==> t.item != NULL && t.item in m && m[t.item].color == t.color
  }

  lemma RecolorBalance(c: Ctx<Ptr>, t: Tree<Ptr>, h: nat)
    requires Balanced(t, h) && BalancedCtx(c, h) && CtxRed(c) && IsRed(Sibling(c.up))
    ensures BalancedCtx(c.up.up, h + 1)
    ensures Balanced(Family(c.up.InLeft?, Blacken(Wrap(c, t)), c.up.item, Red, Blacken(Sibling(c.up))), h + 1)
  {
  }

  lemma OuterBalance(c: Ctx<Ptr>, h: nat)
    requires BalancedCtx(c, h) && CtxRed(c) && !IsRed(Sibling(c.up))
    ensures c.InLeft? && c.up.InLeft? ==>
              BalancedCtx(InLeft(c.item, Black, Node(c.right, c.up.item, Red, c.up.right), c.up.up), h)
    ensures c.InRight? && c.up.InRight? ==>
              BalancedCtx(InRight(Node(c.up.left, c.up.item, Red, c.left), c.item, Black, c.up.up), h)
  {
  }

  /** The uncle is red: the red-red edge moves two cells up. */
  method PushUp(f: Forest, parent: Ptr, uncle: Ptr, gparent: Ptr, r: nat, left: bool, ghost o: seq<Ptr>,
                ghost c: Ctx<Ptr>, ghost t: Tree<Ptr>, ghost h: nat)
    returns (ghost t': Tree<Ptr>)
    requires r < |f.roots| && Pending(f.mem, f.roots[r], o, c, t, h)
    requires CtxRed(c) && c.item == parent && c.up.item == gparent && (left <==> c.up.InLeft?)
    requires c.up.color.Black? && IsRed(Sibling(c.up)) && RootPtr(Sibling(c.up)) == uncle
    modifies f
    ensures f.Only(r, o)
    ensures Pending(f.mem, f.roots[r], o, c.up.up, t', h + 1) && RootPtr(t') == gparent
  {
    Zoom(f.mem, f.roots[r], o, c, t);
    Zoom(f.mem, f.roots[r], o, c.up, Wrap(c, t));
    RecolorBalance(c, t, h);
    Recolor(f, parent, uncle, gparent, r, left, o, c.up.up, Wrap(c, t), Sibling(c.up));
    t' := Family(left, Blacken(Wrap(c, t)), gparent, Red, Blacken(Sibling(c.up)));
  }

  /** The inner-child case on the left becomes the outer-child case. */
  method InnerLeft(f: Forest, node: Ptr, parent: Ptr, r: nat, ghost o: seq<Ptr>, ghost c: Ctx<Ptr>, ghost t: Tree<Ptr>,
                   ghost h: nat)
    returns (ghost c': Ctx<Ptr>, ghost t': Tree<Ptr>)
    requires r < |f.roots| && Pending(f.mem, f.roots[r], o, c, t, h) && RootPtr(t) == node
    requires CtxRed(c) && c.InRight? && c.item == parent
    modifies f
    ensures f.Only(r, o)
    ensures c' == InLeft(node, Red, t.right, c.up) && RootPtr(t') == parent
    ensures Pending(f.mem, f.roots[r], o, c', t', h)
  {
    hide At;
    Zoom(f.mem, f.roots[r], o, c, t);
    f.RotateLeft(parent, r, o, c.up, c.left, Red, t.left, node, Red, t.right);
    t' := Node(c.left, parent, Red, t.left);
    c' := InLeft(node, Red, t.right, c.up);
    Zoom(f.mem, f.roots[r], o, c', t');
  }

  method InnerRight(f: Forest, node: Ptr, parent: Ptr, r: nat, ghost o: seq<Ptr>, ghost c: Ctx<Ptr>, ghost t: Tree<Ptr>,
                    ghost h: nat)
    returns (ghost c': Ctx<Ptr>, ghost t': Tree<Ptr>)
    requires r < |f.roots| && Pending(f.mem, f.roots[r], o, c, t, h) && RootPtr(t) == node
    requires CtxRed(c) && c.InLeft? && c.item == parent
    modifies f
    ensures f.Only(r, o)
    ensures c' == InRight(t.left, node, Red, c.up) && RootPtr(t') == parent
    ensures Pending(f.mem, f.roots[r], o, c', t', h)
  {
    hide At;
    Zoom(f.mem, f.roots[r], o, c, t);
    f.RotateRight(parent, r, o, c.up, t.left, node, Red, t.right, Red, c.right);
    t' := Node(t.right, parent, Red, c.right);
    c' := InRight(t.left, node, Red, c.up);
    Zoom(f.mem, f.roots[r], o, c', t');
  }

  /** The rotation that ends the loop: afterwards the cell above `t` is black. */
  method SettleLeft(f: Forest, parent: Ptr, gparent: Ptr, r: nat, ghost o: seq<Ptr>, ghost c: Ctx<Ptr>,
                    ghost t: Tree<Ptr>, ghost h: nat)
    returns (ghost c': Ctx<Ptr>)
    requires r < |f.roots| && Pending(f.mem, f.roots[r], o, c, t, h) && CtxRed(c)
    requires c.InLeft? && c.item == parent && c.up.InLeft? && c.up.item == gparent && !IsRed(Sibling(c.up))
    modifies f
    ensures f.Only(r, o)
    ensures Pending(f.mem, f.roots[r], o, c', t, h) && Depth(c') < Depth(c)
  {
    assert c.up.color.Black?;
    OuterLeft(f, parent, gparent, r, o, c.up.up, t, c.right, c.up.right);
    OuterBalance(c, h);
    c' := InLeft(parent, Black, Node(c.right, gparent, Red, c.up.right), c.up.up);
  }

  method SettleRight(f: Forest, parent: Ptr, gparent: Ptr, r: nat, ghost o: seq<Ptr>, ghost c: Ctx<Ptr>,
                     ghost t: Tree<Ptr>, ghost h: nat)
    returns (ghost c': Ctx<Ptr>)
    requires r < |f.roots| && Pending(f.mem, f.roots[r], o, c, t, h) && CtxRed(c)
    requires c.InRight? && c.item == parent && c.up.InRight? && c.up.item == gparent && !IsRed(Sibling(c.up))
    modifies f
    ensures f.Only(r, o)
    ensures Pending(f.mem, f.roots[r], o, c', t, h) && Depth(c') < Depth(c)
  {
    assert c.up.color.Black?;
    OuterRight(f, parent, gparent, r, o, c.up.up, t, c.left, c.up.left);
    OuterBalance(c, h);
    c' := InRight(Node(c.up.left, gparent, Red, c.left), parent, Black, c.up.up);
  }

  method StepLeft(f: Forest, node: Ptr, parent: Ptr, gparent: Ptr, r: nat, ghost o: seq<Ptr>, ghost c: Ctx<Ptr>,
                  ghost t: Tree<Ptr>, ghost h: nat)
    returns (node': Ptr, ghost c': Ctx<Ptr>, ghost t': Tree<Ptr>, ghost h': nat)
    requires r < |f.roots| && Pending(f.mem, f.roots[r], o, c, t, h) && RootPtr(t) == node
    requires CtxRed(c) && c.item == parent && c.up.InLeft? && c.up.item == gparent
    modifies f
    ensures f.Only(r, o)
    ensures Pending(f.mem, f.roots[r], o, c', t', h') && RootPtr(t') == node' && Depth(c') < Depth(c)
  {
    ReadFamily(f.mem, f.roots[r], o, c, t, h);
    var uncle := f.mem[gparent].right;
    if uncle != NULL && f.mem[uncle].color == Red {
      t' := PushUp(f, parent, uncle, gparent, r, true, o, c, t, h);
      node', c', h' := gparent, c.up.up, h + 1;
    } else if f.mem[parent].right == node {
      c', t' := InnerLeft(f, node, parent, r, o, c, t, h);
      c' := SettleLeft(f, node, gparent, r, o, c', t', h);
      node', h' := parent, h;
    } else {
      c' := SettleLeft(f, parent, gparent, r, o, c, t, h);
      node', t', h' := node, t, h;
    }
  }

  method StepRight(f: Forest, node: Ptr, parent: Ptr, gparent: Ptr, r: nat, ghost o: seq<Ptr>, ghost c: Ctx<Ptr>,
                   ghost t: Tree<Ptr>, ghost h: nat)
    returns (node': Ptr, ghost c': Ctx<Ptr>, ghost t': Tree<Ptr>, ghost h': nat)
    requires r < |f.roots| && Pending(f.mem, f.roots[r], o, c, t, h) && RootPtr(t) == node
    requires CtxRed(c) && c.item == parent && c.up.InRight? && c.up.item == gparent
    modifies f
    ensures f.Only(r, o)
    ensures Pending(f.mem, f.roots[r], o, c', t', h') && RootPtr(t') == node' && Depth(c') < Depth(c)
  {
    ReadFamily(f.mem, f.roots[r], o, c, t, h);
    var uncle := f.mem[gparent].left;
    if uncle != NULL && f.mem[uncle].color == Red {
      t' := PushUp(f, parent, uncle, gparent, r, false, o, c, t, h);
      node', c', h' := gparent, c.up.up, h + 1;
    } else if f.mem[parent].left == node {
      c', t' := InnerRight(f, node, parent, r, o, c, t, h);
      c' := SettleRight(f, node, gparent, r, o, c', t', h);
      node', h' := parent, h;
    } else {
      c' := SettleRight(f, parent, gparent, r, o, c, t, h);
      node', t', h' := node, t, h;
    }
  }

  lemma {:induction false} RootIsBlack(m: Mem, root: Ptr, c: Ctx<Ptr>, hole: Ptr, h: nat)
    requires HoldsCtx(m, root, c, hole) && BalancedCtx(c, h) && !c.Top?
    ensures root in m && m[root].color == Black
    decreases c
  {
    if !c.up.Top? {
      RootIsBlack(m, root, c.up, c.item, h + Rise(c.color));
    }
  }

  /** Restores the red-black invariants after a red cell was linked in, in the same order. */
  method InsertColor(f: Forest, node: Ptr, r: nat, ghost o: seq<Ptr>, ghost c0: Ctx<Ptr>, ghost t0: Tree<Ptr>,
                     ghost h0: nat)
    returns (ghost t: Tree<Ptr>)
    requires r < |f.roots| && Pending(f.mem, f.roots[r], o, c0, t0, h0) && RootPtr(t0) == node
    modifies f
    ensures f.Only(r, o)
    ensures At(f.mem, f.roots[r], o, Top, t) && Valid(t)
  {
    var n := node;
    ghost var c, h := c0, h0;
    t := t0;
    ReadFamily(f.mem, f.roots[r], o, c, t, h);
    while f.mem[n].parent != NULL && f.mem[f.mem[n].parent].color == Red
      invariant r < |f.roots| && f.Only(r, o)
      invariant Pending(f.mem, f.roots[r], o, c, t, h) && RootPtr(t) == n
      invariant n in f.mem && f.mem[n].parent == CtxPtr(c)
      invariant !c.Top? ==> c.item != NULL && c.item in f.mem && f.mem[c.item].color == c.color
      decreases Depth(c)
    {
      ReadFamily(f.mem, f.roots[r], o, c, t, h);
      var parent := f.mem[n].parent;
      var gparent := f.mem[parent].parent;
      if parent == f.mem[gparent].left {
        n, c, t, h := StepLeft(f, n, parent, gparent, r, o, c, t, h);
      } else {
        n, c, t, h := StepRight(f, n, parent, gparent, r, o, c, t, h);
      }
      ReadFamily(f.mem, f.roots[r], o, c, t, h);
    }
    t := Finish(f, r, o, c, t, h);
  }

  /** The last assignment of the insertion: the root becomes black. */
  method Finish(f: Forest, r: nat, ghost o: seq<Ptr>, ghost c: Ctx<Ptr>, ghost t: Tree<Ptr>, ghost h: nat)
    returns (ghost t': Tree<Ptr>)
    requires r < |f.roots| && Pending(f.mem, f.roots[r], o, c, t, h) && !CtxRed(c)
    modifies f
    ensures f.Only(r, o)
    ensures At(f.mem, f.roots[r], o, Top, t') && Valid(t')
  {
    var root := f.roots[r];
    if c.Top? {
      t' := Blacken(t);
      assert Balanced(t', h + 1);
      RecolorLinks(f.mem, root, o, c, t.left, root, t.color, t.right, Black);
    } else {
      RootIsBlack(f.mem, root, c, t.item, h);
      PlugValid(c, t, h);
      t' := AtPlug(f.mem, root, o, c, t);
      assert f.mem[root := f.mem[root].(color := Black)] == f.mem;
    }
    f.mem := f.mem[root := f.mem[root].(color := Black)];
  }

  // ---- linking in a new cell ----------------------------------------------------------------------

  lemma LinkLinks(m: Mem, m': Mem, root: Ptr, root': Ptr, o: seq<Ptr>, c: Ctx<Ptr>, x: Ptr)
    requires At(m, root, o, c, Leaf) && x !in m && x != NULL && x !in CtxElems(c)
    requires Rehung(m, m', root, root', c, x)
    requires x in m' && m'[x] == Links(CtxPtr(c), Red, NULL, NULL)
    requires Changed(m, m', {x} + PtrSet(CtxPtr(c)))
    ensures Linked(m', root', c, Node(Leaf, x, Red, Leaf))
    ensures Sep(Node(Leaf, x, Red, Leaf)) && SepCtx(c) && Elems(Node(Leaf, x, Red, Leaf)) !! CtxElems(c)
  {
    ChangedSame(m, m', {x} + PtrSet(CtxPtr(c)), CtxElems(c) - {CtxPtr(c)});
    RehungHolds(m, m', root, root', c, NULL, x);
    assert Elems<Ptr>(Leaf) == {};
  }

  /** Links the red cell `node` under `parent`, or as the root. */
  method LinkNode(f: Forest, node: Ptr, parent: Ptr, left: bool, r: nat, ghost o: seq<Ptr>, ghost c: Ctx<Ptr>)
    requires r < |f.roots| && At(f.mem, f.roots[r], o, c, Leaf) && node !in f.mem && node != NULL
    requires parent == CtxPtr(c) && (!c.Top? ==> parent in f.mem && parent != NULL && (left <==> c.InLeft?))
    modifies f
    ensures |f.roots| == |old(f.roots)| && forall i :: 0 <= i < |f.roots| && i != r ==> f.roots[i] == old(f.roots)[i]
    ensures f.mem.Keys == old(f.mem).Keys + {node} && Changed(old(f.mem), f.mem, PtrSet(parent))
    ensures At(f.mem, f.roots[r], Before(c) + [node] + After(c), c, Node(Leaf, node, Red, Leaf))
  {
    CtxCells(f.mem, f.roots[r], c, NULL);
    f.mem := f.mem[node := Links(parent, Red, NULL, NULL)];
    if parent == NULL {
      f.roots := f.roots[r := node];
    } else if left {
      f.mem := f.mem[parent := f.mem[parent].(left := node)];
    } else {
      f.mem := f.mem[parent := f.mem[parent].(right := node)];
    }
    LinkLinks(old(f.mem), f.mem, old(f.roots)[r], f.roots[r], o, c, node);
    ShapeOf(c, Node(Leaf, node, Red, Leaf));
    assert InOrder(Node(Leaf, node, Red, Leaf)) == [node];
  }
}
