/** Rebalancing after an erasure. */
module RbErase {
  import opened RbTree
  import opened RbHeap
  import opened RbInsert

  /** Balanced at height `h`, except that a red head may have red children. */
  predicate Weak(t: Tree<Ptr>, h: nat) {
    if IsRed(t) then Balanced(t.left, h) && Balanced(t.right, h) else Balanced(t, h)
  }

  /** The loop invariant: the paths through `t` are one black cell short. */
  ghost predicate Deficit(m: Mem, root: Ptr, o: seq<Ptr>, c: Ctx<Ptr>, t: Tree<Ptr>, h: nat) {
    At(m, root, o, c, t) && Weak(t, h) && BalancedCtx(c, h + 1)
  }

  /** What is left to do: nothing once the head of `t` is red. */
  function Work(c: Ctx<Ptr>, t: Tree<Ptr>): nat {
    if IsRed(t) then 0 else 1 + Depth(c)
  }

  // ---- what the cells say -----------------------------------------------------------------------

  ghost predicate Reads(m: Mem, t: Tree<Ptr>) {
    t.Node? ==> && t.item != NULL && t.item in m && m[t.item].color == t.color
                && m[t.item].left == RootPtr(t.left) && m[t.item].right == RootPtr(t.right)
                && Colored(m, t.left) && Colored(m, t.right)
  }

  lemma HeadReads(m: Mem, t: Tree<Ptr>, p: Ptr)
    requires Holds(m, t, p)
    ensures Reads(m, t)
  {
    if t.Node? {
      assert Holds(m, t.left, t.item) && Holds(m, t.right, t.item);
    }
  }

  lemma SiblingReads(m: Mem, root: Ptr, o: seq<Ptr>, c: Ctx<Ptr>, t: Tree<Ptr>, h: nat)
    requires Deficit(m, root, o, c, t, h) && !c.Top?
    ensures Sibling(c).Node? && Reads(m, Sibling(c))
    ensures c.item != NULL && c.item in m && m[c.item].color == c.color && m[c.item].parent == CtxPtr(c.up)
    ensures c.InLeft? <==> m[c.item].left == RootPtr(t)
    ensures c.InLeft? ==> m[c.item].right == Sibling(c).item
    ensures c.InRight? ==> m[c.item].left == Sibling(c).item
  {
    HeadReads(m, Sibling(c), c.item);
  }

  lemma {:induction false} FocusReads(m: Mem, root: Ptr, o: seq<Ptr>, c: Ctx<Ptr>, t: Tree<Ptr>)
    requires At(m, root, o, c, t)
    ensures Colored(m, t)
    ensures RootPtr(t) == root <==> c.Top?
  {
    if !c.Top? {
      RootInCtx(m, root, c, RootPtr(t));
    }
  }

  lemma {:induction false} RootInCtx(m: Mem, root: Ptr, c: Ctx<Ptr>, hole: Ptr)
    requires HoldsCtx(m, root, c, hole) && !c.Top?
    ensures root != NULL && root in CtxElems(c)
    decreases c
  {
    if !c.up.Top? {
      RootInCtx(m, root, c.up, c.item);
    }
  }

  // ---- the pointer and colour assignments of each case --------------------------------------------

  method SetSiblingColor(f: Forest, other: Ptr, k: Color, r: nat, ghost o: seq<Ptr>, ghost c: Ctx<Ptr>,
                         ghost t: Tree<Ptr>)
    requires r < |f.roots| && At(f.mem, f.roots[r], o, c, t)
    requires !c.Top? && Sibling(c).Node? && Sibling(c).item == other
    modifies f
    ensures f.Only(r, o)
    ensures At(f.mem, f.roots[r], o, WithSibling(c, Sibling(c).(color := k)), t)
  {
    ghost var s := Sibling(c);
    Sidestep(f.mem, f.roots[r], o, c, t);
    f.SetColor(other, k, r, o, Flip(c, t), s);
    Sidestep(f.mem, f.roots[r], o, WithSibling(c, s.(color := k)), t);
  }

  method RaiseLeft(f: Forest, parent: Ptr, other: Ptr, r: nat, ghost o: seq<Ptr>, ghost up: Ctx<Ptr>,
                   ghost t: Tree<Ptr>, ghost a: Tree<Ptr>, ghost b: Tree<Ptr>)
    requires r < |f.roots|
    requires At(f.mem, f.roots[r], o, InLeft(parent, Black, Node(a, other, Red, b), up), t)
    modifies f
    ensures f.Only(r, o)
    ensures At(f.mem, f.roots[r], o, InLeft(parent, Red, a, InLeft(other, Black, b, up)), t)
  {
    SetSiblingColor(f, other, Black, r, o, InLeft(parent, Black, Node(a, other, Red, b), up), t);
    ZoomLeft(f.mem, f.roots[r], o, up, t, parent, Black, Node(a, other, Black, b));
    f.SetColor(parent, Red, r, o, up, Node(t, parent, Black, Node(a, other, Black, b)));
    f.RotateLeft(parent, r, o, up, t, Red, a, other, Black, b);
    ZoomLeft(f.mem, f.roots[r], o, up, Node(t, parent, Red, a), other, Black, b);
    ZoomLeft(f.mem, f.roots[r], o, InLeft(other, Black, b, up), t, parent, Red, a);
  }

  method RaiseRight(f: Forest, parent: Ptr, other: Ptr, r: nat, ghost o: seq<Ptr>, ghost up: Ctx<Ptr>,
                    ghost t: Tree<Ptr>, ghost a: Tree<Ptr>, ghost b: Tree<Ptr>)
    requires r < |f.roots|
    requires At(f.mem, f.roots[r], o, InRight(Node(a, other, Red, b), parent, Black, up), t)
    modifies f
    ensures f.Only(r, o)
    ensures At(f.mem, f.roots[r], o, InRight(b, parent, Red, InRight(a, other, Black, up)), t)
  {
    SetSiblingColor(f, other, Black, r, o, InRight(Node(a, other, Red, b), parent, Black, up), t);
    ZoomRight(f.mem, f.roots[r], o, up, Node(a, other, Black, b), parent, Black, t);
    f.SetColor(parent, Red, r, o, up, Node(Node(a, other, Black, b), parent, Black, t));
    f.RotateRight(parent, r, o, up, a, other, Black, b, Red, t);
    ZoomRight(f.mem, f.roots[r], o, up, a, other, Black, Node(b, parent, Red, t));
    ZoomRight(f.mem, f.roots[r], o, InRight(a, other, Black, up), b, parent, Red, t);
  }

  /** Brings the red nephew to the outside, on the left branch of the loop. */
  method TurnLeft(f: Forest, other: Ptr, r: nat, ghost o: seq<Ptr>, ghost p: Ptr, ghost k: Color, ghost up: Ctx<Ptr>,
                  ghost t: Tree<Ptr>, ghost a: Tree<Ptr>, y: Ptr, ghost b: Tree<Ptr>, ghost d: Tree<Ptr>)
    requires r < |f.roots|
    requires At(f.mem, f.roots[r], o, InLeft(p, k, Node(Node(a, y, Red, b), other, Black, d), up), t)
    modifies f
    ensures f.Only(r, o)
    ensures At(f.mem, f.roots[r], o, InLeft(p, k, Node(a, y, Black, Node(b, other, Red, d)), up), t)
  {
    ghost var e := InRight(t, p, k, up);
    Sidestep(f.mem, f.roots[r], o, InLeft(p, k, Node(Node(a, y, Red, b), other, Black, d), up), t);
    ZoomLeft(f.mem, f.roots[r], o, e, Node(a, y, Red, b), other, Black, d);
    f.SetColor(y, Black, r, o, InLeft(other, Black, d, e), Node(a, y, Red, b));
    ZoomLeft(f.mem, f.roots[r], o, e, Node(a, y, Black, b), other, Black, d);
    f.SetColor(other, Red, r, o, e, Node(Node(a, y, Black, b), other, Black, d));
    f.RotateRight(other, r, o, e, a, y, Black, b, Red, d);
    Sidestep(f.mem, f.roots[r], o, InLeft(p, k, Node(a, y, Black, Node(b, other, Red, d)), up), t);
  }

  method TurnRight(f: Forest, other: Ptr, r: nat, ghost o: seq<Ptr>, ghost p: Ptr, ghost k: Color, ghost up: Ctx<Ptr>,
                   ghost t: Tree<Ptr>, ghost a: Tree<Ptr>, y: Ptr, ghost b: Tree<Ptr>, ghost d: Tree<Ptr>)
    requires r < |f.roots|
    requires At(f.mem, f.roots[r], o, InRight(Node(a, other, Black, Node(b, y, Red, d)), p, k, up), t)
    modifies f
    ensures f.Only(r, o)
    ensures At(f.mem, f.roots[r], o, InRight(Node(Node(a, other, Red, b), y, Black, d), p, k, up), t)
  {
    ghost var e := InLeft(p, k, t, up);
    Sidestep(f.mem, f.roots[r], o, InRight(Node(a, other, Black, Node(b, y, Red, d)), p, k, up), t);
    ZoomRight(f.mem, f.roots[r], o, e, a, other, Black, Node(b, y, Red, d));
    f.SetColor(y, Black, r, o, InRight(a, other, Black, e), Node(b, y, Red, d));
    ZoomRight(f.mem, f.roots[r], o, e, a, other, Black, Node(b, y, Black, d));
    f.SetColor(other, Red, r, o, e, Node(a, other, Black, Node(b, y, Black, d)));
    f.RotateLeft(other, r, o, e, a, Red, b, y, Black, d);
    Sidestep(f.mem, f.roots[r], o, InRight(Node(Node(a, other, Red, b), y, Black, d), p, k, up), t);
  }

  /** The sibling takes the parent's colour, parent and outer nephew become black, and the parent
      is rotated down. */
  method CloseLeft(f: Forest, parent: Ptr, other: Ptr, z: Ptr, r: nat, ghost o: seq<Ptr>, k: Color, ghost up: Ctx<Ptr>,
                   ghost t: Tree<Ptr>, ghost a: Tree<Ptr>, ghost j: Color, ghost e: Tree<Ptr>, ghost g: Tree<Ptr>)
    requires r < |f.roots|
    requires At(f.mem, f.roots[r], o, InLeft(parent, k, Node(a, other, j, Node(e, z, Red, g)), up), t)
    modifies f
    ensures f.Only(r, o)
    ensures At(f.mem, f.roots[r], o, up, Node(Node(t, parent, Black, a), other, k, Node(e, z, Black, g)))
  {
    SetSiblingColor(f, other, k, r, o, InLeft(parent, k, Node(a, other, j, Node(e, z, Red, g)), up), t);
    ZoomLeft(f.mem, f.roots[r], o, up, t, parent, k, Node(a, other, k, Node(e, z, Red, g)));
    f.SetColor(parent, Black, r, o, up, Node(t, parent, k, Node(a, other, k, Node(e, z, Red, g))));
    SetOuterLeft(f, parent, other, z, r, o, k, up, t, a, e, g);
    f.RotateLeft(parent, r, o, up, t, Black, a, other, k, Node(e, z, Black, g));
  }

  method SetOuterLeft(f: Forest, ghost parent: Ptr, ghost other: Ptr, z: Ptr, r: nat, ghost o: seq<Ptr>, ghost k: Color,
                      ghost up: Ctx<Ptr>, ghost t: Tree<Ptr>, ghost a: Tree<Ptr>, ghost e: Tree<Ptr>,
                      ghost g: Tree<Ptr>)
    requires r < |f.roots|
    requires At(f.mem, f.roots[r], o, up, Node(t, parent, Black, Node(a, other, k, Node(e, z, Red, g))))
    modifies f
    ensures f.Only(r, o)
    ensures At(f.mem, f.roots[r], o, up, Node(t, parent, Black, Node(a, other, k, Node(e, z, Black, g))))
  {
    ghost var d := InRight(t, parent, Black, up);
    ZoomRight(f.mem, f.roots[r], o, up, t, parent, Black, Node(a, other, k, Node(e, z, Red, g)));
    ZoomRight(f.mem, f.roots[r], o, d, a, other, k, Node(e, z, Red, g));
    f.SetColor(z, Black, r, o, InRight(a, other, k, d), Node(e, z, Red, g));
    ZoomRight(f.mem, f.roots[r], o, d, a, other, k, Node(e, z, Black, g));
    ZoomRight(f.mem, f.roots[r], o, up, t, parent, Black, Node(a, other, k, Node(e, z, Black, g)));
  }

  method CloseRight(f: Forest, parent: Ptr, other: Ptr, z: Ptr, r: nat, ghost o: seq<Ptr>, k: Color, ghost up: Ctx<Ptr>,
                    ghost t: Tree<Ptr>, ghost a: Tree<Ptr>, ghost j: Color, ghost e: Tree<Ptr>, ghost g: Tree<Ptr>)
    requires r < |f.roots|
    requires At(f.mem, f.roots[r], o, InRight(Node(Node(e, z, Red, g), other, j, a), parent, k, up), t)
    modifies f
    ensures f.Only(r, o)
    ensures At(f.mem, f.roots[r], o, up, Node(Node(e, z, Black, g), other, k, Node(a, parent, Black, t)))
  {
    SetSiblingColor(f, other, k, r, o, InRight(Node(Node(e, z, Red, g), other, j, a), parent, k, up), t);
    ZoomRight(f.mem, f.roots[r], o, up, Node(Node(e, z, Red, g), other, k, a), parent, k, t);
    f.SetColor(parent, Black, r, o, up, Node(Node(Node(e, z, Red, g), other, k, a), parent, k, t));
    SetOuterRight(f, parent, other, z, r, o, k, up, t, a, e, g);
    f.RotateRight(parent, r, o, up, Node(e, z, Black, g), other, k, a, Black, t);
  }

  method SetOuterRight(f: Forest, ghost parent: Ptr, ghost other: Ptr, z: Ptr, r: nat, ghost o: seq<Ptr>,
                       ghost k: Color, ghost up: Ctx<Ptr>, ghost t: Tree<Ptr>, ghost a: Tree<Ptr>, ghost e: Tree<Ptr>,
                       ghost g: Tree<Ptr>)
    requires r < |f.roots|
    requires At(f.mem, f.roots[r], o, up, Node(Node(Node(e, z, Red, g), other, k, a), parent, Black, t))
    modifies f
    ensures f.Only(r, o)
    ensures At(f.mem, f.roots[r], o, up, Node(Node(Node(e, z, Black, g), other, k, a), parent, Black, t))
  {
    ghost var d := InLeft(parent, Black, t, up);
    ZoomLeft(f.mem, f.roots[r], o, up, Node(Node(e, z, Red, g), other, k, a), parent, Black, t);
    ZoomLeft(f.mem, f.roots[r], o, d, Node(e, z, Red, g), other, k, a);
    f.SetColor(z, Black, r, o, InLeft(other, k, a, d), Node(e, z, Red, g));
    ZoomLeft(f.mem, f.roots[r], o, d, Node(e, z, Black, g), other, k, a);
    ZoomLeft(f.mem, f.roots[r], o, up, Node(Node(e, z, Black, g), other, k, a), parent, Black, t);
  }

  // ---- balance ----------------------------------------------------------------------------------

  lemma RaiseBalance(c: Ctx<Ptr>, h: nat)
    requires !c.Top? && BalancedCtx(c, h + 1) && IsRed(Sibling(c))
    ensures c.color.Black?
    ensures c.InLeft? ==>
              BalancedCtx(InLeft(c.item, Red, c.right.left, InLeft(c.right.item, Black, c.right.right, c.up)), h + 1)
    ensures c.InRight? ==>
              BalancedCtx(InRight(c.left.right, c.item, Red, InRight(c.left.left, c.left.item, Black, c.up)), h + 1)
  {
  }

  lemma ShrinkBalance(c: Ctx<Ptr>, t: Tree<Ptr>, h: nat)
    requires !c.Top? && BalancedCtx(c, h + 1) && Balanced(t, h) && Sibling(c).Node? && Sibling(c).color.Black?
    requires !IsRed(Sibling(c).left) && !IsRed(Sibling(c).right)
    ensures Weak(Wrap(WithSibling(c, Sibling(c).(color := Red)), t), h + Rise(c.color))
    ensures BalancedCtx(c.up, h + Rise(c.color) + 1)
  {
  }

  lemma TurnBalance(c: Ctx<Ptr>, h: nat)
    requires !c.Top? && BalancedCtx(c, h + 1) && Sibling(c).Node? && Sibling(c).color.Black?
    ensures c.InLeft? && IsRed(c.right.left) && !IsRed(c.right.right) ==>
      BalancedCtx(InLeft(c.item, c.color, Node(c.right.left.left, c.right.left.item, Black,
                  Node(c.right.left.right, c.right.item, Red, c.right.right)), c.up), h + 1)
    ensures c.InRight? && IsRed(c.left.right) && !IsRed(c.left.left) ==>
      BalancedCtx(InRight(Node(Node(c.left.left, c.left.item, Red, c.left.right.left), c.left.right.item, Black,
                  c.left.right.right), c.item, c.color, c.up), h + 1)
  {
    assert Balanced(Sibling(c).left, h) && Balanced(Sibling(c).right, h);
  }

  lemma CloseBalance(c: Ctx<Ptr>, t: Tree<Ptr>, h: nat)
    requires !c.Top? && BalancedCtx(c, h + 1) && Balanced(t, h) && Sibling(c).Node? && Sibling(c).color.Black?
    ensures BalancedCtx(c.up, h + 1 + Rise(c.color)) && (c.color.Red? ==> !c.up.Top? && !CtxRed(c.up))
    ensures c.InLeft? && IsRed(c.right.right) ==>
      Balanced(Node(Node(t, c.item, Black, c.right.left), c.right.item, c.color, Blacken(c.right.right)),
               h + 1 + Rise(c.color))
    ensures c.InRight? && IsRed(c.left.left) ==>
      Balanced(Node(Blacken(c.left.left), c.left.item, c.color, Node(c.left.right, c.item, Black, t)),
               h + 1 + Rise(c.color))
  {
    assert Balanced(Sibling(c).left, h) && Balanced(Sibling(c).right, h);
  }

  // ---- the cases of the loop --------------------------------------------------------------------

  /** A red sibling is rotated above the parent, so that the new sibling is black. */
  method RedSiblingLeft(f: Forest, parent: Ptr, other: Ptr, r: nat, ghost o: seq<Ptr>, ghost c: Ctx<Ptr>,
                        ghost t: Tree<Ptr>, ghost h: nat)
    returns (ghost c': Ctx<Ptr>)
    requires r < |f.roots| && Deficit(f.mem, f.roots[r], o, c, t, h)
    requires c.InLeft? && c.item == parent && IsRed(c.right) && c.right.item == other
    modifies f
    ensures f.Only(r, o)
    ensures Deficit(f.mem, f.roots[r], o, c', t, h) && c'.InLeft? && c'.item == parent
    ensures c'.color.Red? && Depth(c') == Depth(c) + 1
  {
    RaiseBalance(c, h);
    RaiseLeft(f, parent, other, r, o, c.up, t, c.right.left, c.right.right);
    c' := InLeft(parent, Red, c.right.left, InLeft(other, Black, c.right.right, c.up));
  }

  method RedSiblingRight(f: Forest, parent: Ptr, other: Ptr, r: nat, ghost o: seq<Ptr>, ghost c: Ctx<Ptr>,
                         ghost t: Tree<Ptr>, ghost h: nat)
    returns (ghost c': Ctx<Ptr>)
    requires r < |f.roots| && Deficit(f.mem, f.roots[r], o, c, t, h)
    requires c.InRight? && c.item == parent && IsRed(c.left) && c.left.item == other
    modifies f
    ensures f.Only(r, o)
    ensures Deficit(f.mem, f.roots[r], o, c', t, h) && c'.InRight? && c'.item == parent
    ensures c'.color.Red? && Depth(c') == Depth(c) + 1
  {
    RaiseBalance(c, h);
    RaiseRight(f, parent, other, r, o, c.up, t, c.left.left, c.left.right);
    c' := InRight(c.left.right, parent, Red, InRight(c.left.left, other, Black, c.up));
  }

  /** The sibling and its children are black: it becomes red and the shortage moves up. */
  method BlackNephews(f: Forest, other: Ptr, r: nat, ghost o: seq<Ptr>, ghost c: Ctx<Ptr>, ghost t: Tree<Ptr>,
                      ghost h: nat)
    returns (ghost t': Tree<Ptr>)
    requires r < |f.roots| && Deficit(f.mem, f.roots[r], o, c, t, h) && !IsRed(t)
    requires !c.Top? && Sibling(c).Node? && Sibling(c).item == other && Sibling(c).color.Black?
    requires !IsRed(Sibling(c).left) && !IsRed(Sibling(c).right)
    modifies f
    ensures f.Only(r, o)
    ensures Deficit(f.mem, f.roots[r], o, c.up, t', h + Rise(c.color))
    ensures t'.Node? && t'.item == c.item && t'.color == c.color
  {
    ShrinkBalance(c, t, h);
    SetSiblingColor(f, other, Red, r, o, c, t);
    ghost var c' := WithSibling(c, Sibling(c).(color := Red));
    Zoom(f.mem, f.roots[r], o, c', t);
    t' := Wrap(c', t);
  }

  /** Only the inner nephew is red: rotate it to the outside. */
  method InnerNephewLeft(f: Forest, other: Ptr, y: Ptr, r: nat, ghost o: seq<Ptr>, ghost c: Ctx<Ptr>,
                         ghost t: Tree<Ptr>, ghost h: nat)
    returns (ghost c': Ctx<Ptr>)
    requires r < |f.roots| && Deficit(f.mem, f.roots[r], o, c, t, h)
    requires c.InLeft? && c.right.Node? && c.right.item == other && c.right.color.Black?
    requires IsRed(c.right.left) && c.right.left.item == y && !IsRed(c.right.right)
    modifies f
    ensures f.Only(r, o)
    ensures Deficit(f.mem, f.roots[r], o, c', t, h) && c'.InLeft? && c'.item == c.item && c'.color == c.color
    ensures c'.right.Node? && c'.right.item == y && c'.right.color.Black? && IsRed(c'.right.right)
  {
    TurnBalance(c, h);
    ghost var s := c.right;
    TurnLeft(f, other, r, o, c.item, c.color, c.up, t, s.left.left, y, s.left.right, s.right);
    c' := InLeft(c.item, c.color, Node(s.left.left, y, Black, Node(s.left.right, other, Red, s.right)), c.up);
  }

  method InnerNephewRight(f: Forest, other: Ptr, y: Ptr, r: nat, ghost o: seq<Ptr>, ghost c: Ctx<Ptr>,
                          ghost t: Tree<Ptr>, ghost h: nat)
    returns (ghost c': Ctx<Ptr>)
    requires r < |f.roots| && Deficit(f.mem, f.roots[r], o, c, t, h)
    requires c.InRight? && c.left.Node? && c.left.item == other && c.left.color.Black?
    requires IsRed(c.left.right) && c.left.right.item == y && !IsRed(c.left.left)
    modifies f
    ensures f.Only(r, o)
    ensures Deficit(f.mem, f.roots[r], o, c', t, h) && c'.InRight? && c'.item == c.item && c'.color == c.color
    ensures c'.left.Node? && c'.left.item == y && c'.left.color.Black? && IsRed(c'.left.left)
  {
    TurnBalance(c, h);
    ghost var s := c.left;
    TurnRight(f, other, r, o, c.item, c.color, c.up, t, s.left, y, s.right.left, s.right.right);
    c' := InRight(Node(Node(s.left, other, Red, s.right.left), y, Black, s.right.right), c.item, c.color, c.up);
  }

  /** The outer nephew is red: one rotation makes up for the missing black cell everywhere. */
  method OuterNephewLeft(f: Forest, parent: Ptr, other: Ptr, z: Ptr, k: Color, r: nat, ghost o: seq<Ptr>,
                         ghost c: Ctx<Ptr>, ghost t: Tree<Ptr>, ghost h: nat)
    returns (ghost t': Tree<Ptr>)
    requires r < |f.roots| && Deficit(f.mem, f.roots[r], o, c, t, h) && !IsRed(t)
    requires c.InLeft? && c.item == parent && c.color == k && c.right.Node? && c.right.item == other
    requires c.right.color.Black?
    requires IsRed(c.right.right) && c.right.right.item == z
    modifies f
    ensures f.Only(r, o)
    ensures At(f.mem, f.roots[r], o, Top, t') && Valid(t')
  {
    hide At;
    CloseBalance(c, t, h);
    ghost var s := c.right;
    CloseLeft(f, parent, other, z, r, o, k, c.up, t, s.left, Black, s.right.left, s.right.right);
    ghost var u := Node(Node(t, parent, Black, s.left), other, k, Blacken(s.right));
    PlugValid(c.up, u, h + 1 + Rise(k));
    t' := AtPlug(f.mem, f.roots[r], o, c.up, u);
  }

  method OuterNephewRight(f: Forest, parent: Ptr, other: Ptr, z: Ptr, k: Color, r: nat, ghost o: seq<Ptr>,
                          ghost c: Ctx<Ptr>, ghost t: Tree<Ptr>, ghost h: nat)
    returns (ghost t': Tree<Ptr>)
    requires r < |f.roots| && Deficit(f.mem, f.roots[r], o, c, t, h) && !IsRed(t)
    requires c.InRight? && c.item == parent && c.color == k && c.left.Node? && c.left.item == other
    requires c.left.color.Black?
    requires IsRed(c.left.left) && c.left.left.item == z
    modifies f
    ensures f.Only(r, o)
    ensures At(f.mem, f.roots[r], o, Top, t') && Valid(t')
  {
    hide At;
    CloseBalance(c, t, h);
    ghost var s := c.left;
    CloseRight(f, parent, other, z, r, o, k, c.up, t, s.right, Black, s.left.left, s.left.right);
    ghost var u := Node(Blacken(s.left), other, k, Node(s.right, parent, Black, t));
    PlugValid(c.up, u, h + 1 + Rise(k));
    t' := AtPlug(f.mem, f.roots[r], o, c.up, u);
  }

  /** One iteration with the short subtree on the left. */
  method StepLeft(f: Forest, node: Ptr, parent: Ptr, r: nat, ghost o: seq<Ptr>, ghost c0: Ctx<Ptr>, ghost t: Tree<Ptr>,
                  ghost h: nat)
    returns (done: bool, node': Ptr, parent': Ptr, ghost c': Ctx<Ptr>, ghost t': Tree<Ptr>, ghost h': nat)
    requires r < |f.roots| && Deficit(f.mem, f.roots[r], o, c0, t, h) && !IsRed(t)
    requires c0.InLeft? && c0.item == parent && RootPtr(t) == node
    modifies f
    ensures f.Only(r, o)
    ensures done ==> node' == f.roots[r] && At(f.mem, f.roots[r], o, Top, t') && Valid(t')
    ensures !done ==> Deficit(f.mem, f.roots[r], o, c', t', h') && RootPtr(t') == node' && CtxPtr(c') == parent'
    ensures !done ==> Work(c', t') < Work(c0, t)
  {
    ghost var c := c0;
    SiblingReads(f.mem, f.roots[r], o, c, t, h);
    var other := f.mem[parent].right;
    if f.mem[other].color == Red {
      c := RedSiblingLeft(f, parent, other, r, o, c, t, h);
      SiblingReads(f.mem, f.roots[r], o, c, t, h);
      other := f.mem[parent].right;
    }
    done, node', parent', c', t', h' := RepairLeft(f, node, parent, other, r, o, c, t, h);
  }

  /** The rest of the iteration, the sibling being black. */
  method RepairLeft(f: Forest, node: Ptr, parent: Ptr, other0: Ptr, r: nat, ghost o: seq<Ptr>, ghost c0: Ctx<Ptr>,
                    ghost t: Tree<Ptr>, ghost h: nat)
    returns (done: bool, node': Ptr, parent': Ptr, ghost c': Ctx<Ptr>, ghost t': Tree<Ptr>, ghost h': nat)
    requires r < |f.roots| && Deficit(f.mem, f.roots[r], o, c0, t, h) && !IsRed(t)
    requires c0.InLeft? && c0.item == parent && RootPtr(t) == node
    requires c0.right.Node? && c0.right.item == other0 && c0.right.color.Black?
    modifies f
    ensures f.Only(r, o)
    ensures done ==> node' == f.roots[r] && At(f.mem, f.roots[r], o, Top, t') && Valid(t')
    ensures !done ==> Deficit(f.mem, f.roots[r], o, c', t', h') && RootPtr(t') == node' && CtxPtr(c') == parent'
    ensures !done ==> c' == c0.up && t'.Node? && t'.color == c0.color
  {
    var other := other0;
    ghost var c := c0;
    SiblingReads(f.mem, f.roots[r], o, c, t, h);
    var left, right := f.mem[other].left, f.mem[other].right;
    c', h', parent' := c.up, h + Rise(c.color), f.mem[parent].parent;
    if (left == NULL || f.mem[left].color == Black) && (right == NULL || f.mem[right].color == Black) {
      t' := BlackNephews(f, other, r, o, c, t, h);
      done, node' := false, parent;
    } else {
      if right == NULL || f.mem[right].color == Black {
        c := InnerNephewLeft(f, other, left, r, o, c, t, h);
        SiblingReads(f.mem, f.roots[r], o, c, t, h);
        other := f.mem[parent].right;
      }
      t' := OuterNephewLeft(f, parent, other, f.mem[other].right, f.mem[parent].color, r, o, c, t, h);
      done, node' := true, f.roots[r];
    }
  }

  /** One iteration with the short subtree on the right. */
  method StepRight(f: Forest, node: Ptr, parent: Ptr, r: nat, ghost o: seq<Ptr>, ghost c0: Ctx<Ptr>, ghost t: Tree<Ptr>,
                   ghost h: nat)
    returns (done: bool, node': Ptr, parent': Ptr, ghost c': Ctx<Ptr>, ghost t': Tree<Ptr>, ghost h': nat)
    requires r < |f.roots| && Deficit(f.mem, f.roots[r], o, c0, t, h) && !IsRed(t)
    requires c0.InRight? && c0.item == parent && RootPtr(t) == node
    modifies f
    ensures f.Only(r, o)
    ensures done ==> node' == f.roots[r] && At(f.mem, f.roots[r], o, Top, t') && Valid(t')
    ensures !done ==> Deficit(f.mem, f.roots[r], o, c', t', h') && RootPtr(t') == node' && CtxPtr(c') == parent'
    ensures !done ==> Work(c', t') < Work(c0, t)
  {
    ghost var c := c0;
    SiblingReads(f.mem, f.roots[r], o, c, t, h);
    var other := f.mem[parent].left;
    if f.mem[other].color == Red {
      c := RedSiblingRight(f, parent, other, r, o, c, t, h);
      SiblingReads(f.mem, f.roots[r], o, c, t, h);
      other := f.mem[parent].left;
    }
    done, node', parent', c', t', h' := RepairRight(f, node, parent, other, r, o, c, t, h);
  }

  /** The rest of the iteration, the sibling being black. */
  method RepairRight(f: Forest, node: Ptr, parent: Ptr, other0: Ptr, r: nat, ghost o: seq<Ptr>, ghost c0: Ctx<Ptr>,
                     ghost t: Tree<Ptr>, ghost h: nat)
    returns (done: bool, node': Ptr, parent': Ptr, ghost c': Ctx<Ptr>, ghost t': Tree<Ptr>, ghost h': nat)
    requires r < |f.roots| && Deficit(f.mem, f.roots[r], o, c0, t, h) && !IsRed(t)
    requires c0.InRight? && c0.item == parent && RootPtr(t) == node
    requires c0.left.Node? && c0.left.item == other0 && c0.left.color.Black?
    modifies f
    ensures f.Only(r, o)
    ensures done ==> node' == f.roots[r] && At(f.mem, f.roots[r], o, Top, t') && Valid(t')
    ensures !done ==> Deficit(f.mem, f.roots[r], o, c', t', h') && RootPtr(t') == node' && CtxPtr(c') == parent'
    ensures !done ==> c' == c0.up && t'.Node? && t'.color == c0.color
  {
    var other := other0;
    ghost var c := c0;
    SiblingReads(f.mem, f.roots[r], o, c, t, h);
    var left, right := f.mem[other].left, f.mem[other].right;
    c', h', parent' := c.up, h + Rise(c.color), f.mem[parent].parent;
    if (left == NULL || f.mem[left].color == Black) && (right == NULL || f.mem[right].color == Black) {
      t' := BlackNephews(f, other, r, o, c, t, h);
      done, node' := false, parent;
    } else {
      if left == NULL || f.mem[left].color == Black {
        c := InnerNephewRight(f, other, right, r, o, c, t, h);
        SiblingReads(f.mem, f.roots[r], o, c, t, h);
        other := f.mem[parent].left;
      }
      t' := OuterNephewRight(f, parent, other, f.mem[other].left, f.mem[parent].color, r, o, c, t, h);
      done, node' := true, f.roots[r];
    }
  }

  /** Repairs a tree whose paths through `t` lost a black cell; the order of the cells stays. */
  method EraseColor(f: Forest, node: Ptr, parent: Ptr, r: nat, ghost o: seq<Ptr>, ghost c0: Ctx<Ptr>,
                    ghost t0: Tree<Ptr>, ghost h0: nat)
    returns (ghost t: Tree<Ptr>)
    requires r < |f.roots| && Deficit(f.mem, f.roots[r], o, c0, t0, h0)
    requires RootPtr(t0) == node && CtxPtr(c0) == parent
    modifies f
    ensures f.Only(r, o)
    ensures At(f.mem, f.roots[r], o, Top, t) && Valid(t)
  {
    hide At;
    var n, p := node, parent;
    ghost var c, h := c0, h0;
    t := t0;
    FocusReads(f.mem, f.roots[r], o, c, t);
    while (n == NULL || f.mem[n].color == Black) && n != f.roots[r]
      invariant r < |f.roots| && f.Only(r, o)
      invariant Deficit(f.mem, f.roots[r], o, c, t, h) && RootPtr(t) == n && CtxPtr(c) == p
      invariant Colored(f.mem, t) && (n == f.roots[r] <==> c.Top?)
      decreases Work(c, t)
    {
      var done;
      SiblingReads(f.mem, f.roots[r], o, c, t, h);
      if f.mem[p].left == n {
        done, n, p, c, t, h := StepLeft(f, n, p, r, o, c, t, h);
      } else {
        done, n, p, c, t, h := StepRight(f, n, p, r, o, c, t, h);
      }
      if done {
        f.PaintRoot(n, r, o, t);
        return;
      }
      FocusReads(f.mem, f.roots[r], o, c, t);
    }
    t := Settle(f, n, r, o, c, t, h);
  }

  /** The last assignment: a red head, or the root, becomes black. */
  method Settle(f: Forest, n: Ptr, r: nat, ghost o: seq<Ptr>, ghost c: Ctx<Ptr>, ghost t: Tree<Ptr>, ghost h: nat)
    returns (ghost t': Tree<Ptr>)
    requires r < |f.roots| && Deficit(f.mem, f.roots[r], o, c, t, h) && RootPtr(t) == n
    requires Colored(f.mem, t) && (IsRed(t) || c.Top?)
    modifies f
    ensures f.Only(r, o)
    ensures At(f.mem, f.roots[r], o, Top, t') && Valid(t')
  {
    if n != NULL {
      BlackenFits(c, t, h);
      f.SetColor(n, Black, r, o, c, t);
      PlugValid(c, Blacken(t), if IsRed(t) then h + 1 else h);
      t' := AtPlug(f.mem, f.roots[r], o, c, Blacken(t));
    } else {
      t' := t;
      assert Balanced(t, h);
    }
  }

  lemma BlackenFits(c: Ctx<Ptr>, t: Tree<Ptr>, h: nat)
    requires Weak(t, h) && BalancedCtx(c, h + 1) && t.Node? && (!IsRed(t) ==> c.Top?)
    ensures if IsRed(t) then Balanced(Blacken(t), h + 1) && BalancedCtx(c, h + 1)
            else Balanced(Blacken(t), h) && BalancedCtx(c, h)
  {
  }
}
