/** Erasing a cell: unlinking it, or putting its successor in its place. */
module RbRemove {
  import opened RbTree
  import opened RbHeap
  import opened RbErase

  /** `t` fits its context in a valid tree. */
  predicate Fits(c: Ctx<Ptr>, t: Tree<Ptr>, h: nat) {
    Balanced(t, h) && BalancedCtx(c, h) && (IsRed(t) ==> !c.Top? && !CtxRed(c))
  }

  lemma FitsDown(c: Ctx<Ptr>, t: Tree<Ptr>, h: nat)
    requires Fits(c, t, h) && t.Node?
    ensures h >= Rise(t.color)
    ensures Fits(InLeft(t.item, t.color, t.right, c), t.left, h - Rise(t.color))
    ensures Fits(InRight(t.left, t.item, t.color, c), t.right, h - Rise(t.color))
  {
  }

  // ---- a cell with at most one child --------------------------------------------------------------

  /** `x` with `ch` as its only child, on either side. */
  predicate OnlyChild(t: Tree<Ptr>, x: Ptr, ch: Tree<Ptr>) {
    t.Node? && t.item == x && ((t.left == ch && t.right.Leaf?) || (t.right == ch && t.left.Leaf?))
  }

  lemma UnlinkLinks(m: Mem, m': Mem, root: Ptr, root': Ptr, o: seq<Ptr>, c: Ctx<Ptr>, t: Tree<Ptr>, x: Ptr,
                    ch: Tree<Ptr>)
    requires At(m, root, o, c, t) && OnlyChild(t, x, ch)
    requires Rehung(m, m', root, root', c, RootPtr(ch))
    requires ch.Node? ==> ch.item in m && ch.item in m' && m'[ch.item] == m[ch.item].(parent := CtxPtr(c))
    requires Changed(m, m', PtrSet(RootPtr(ch)) + PtrSet(CtxPtr(c)))
    ensures At(m', root', Before(c) + InOrder(ch) + After(c), c, ch)
  {
    var s := PtrSet(RootPtr(ch)) + PtrSet(CtxPtr(c));
    assert Holds(m, ch, x) && Sep(ch);
    assert s !! (Elems(ch) - {RootPtr(ch)}) && s !! (CtxElems(c) - {CtxPtr(c)});
    ChangedSame(m, m', s, Elems(ch) - {RootPtr(ch)});
    ChangedSame(m, m', s, CtxElems(c) - {CtxPtr(c)});
    Reparented(m, m', ch, x, CtxPtr(c));
    RehungHolds(m, m', root, root', c, x, RootPtr(ch));
    ShapeOf(c, ch);
  }

  lemma UnlinkPivot(m: Mem, root: Ptr, o: seq<Ptr>, c: Ctx<Ptr>, t: Tree<Ptr>, x: Ptr, ch: Tree<Ptr>)
    requires At(m, root, o, c, t) && OnlyChild(t, x, ch)
    ensures x != NULL && x in m && m[x].parent == CtxPtr(c) && m[x].color == t.color && x !in Elems(ch)
    ensures x !in CtxElems(c)
    ensures ch.Node? ==> ch.item != NULL && ch.item in m && ch.item !in CtxElems(c)
    ensures !c.Top? ==> c.item != NULL && c.item in m
    ensures Sided(m, c, x)
    ensures PtrSet(RootPtr(ch)) + PtrSet(CtxPtr(c)) <= Members(o)
  {
    assert Holds(m, ch, x);
  }

  /** Takes `node` out: its only child moves up. */
  method Unlink(f: Forest, node: Ptr, child: Ptr, parent: Ptr, r: nat, ghost o: seq<Ptr>, ghost c: Ctx<Ptr>,
                ghost t: Tree<Ptr>, ghost ch: Tree<Ptr>)
    requires r < |f.roots| && At(f.mem, f.roots[r], o, c, t) && OnlyChild(t, node, ch)
    requires child == RootPtr(ch) && parent == CtxPtr(c)
    modifies f
    ensures f.Only(r, o)
    ensures At(f.mem, f.roots[r], Before(c) + InOrder(ch) + After(c), c, ch)
  {
    UnlinkPivot(f.mem, f.roots[r], o, c, t, node, ch);
    f.SetParent(child, parent);
    f.ReplaceChild(parent, node, child, r, c);
    UnlinkLinks(old(f.mem), f.mem, old(f.roots)[r], f.roots[r], o, c, t, node, ch);
  }

  // ---- a cell with two children -------------------------------------------------------------------

  lemma {:induction false} Spine(m: Mem, root: Ptr, o: seq<Ptr>, inner: Ctx<Ptr>, outer: Ctx<Ptr>, t: Tree<Ptr>)
    ensures At(m, root, o, Append(inner, outer), t) <==> At(m, root, o, outer, Plug(inner, t))
    decreases inner
  {
    if !inner.Top? {
      Zoom(m, root, o, Append(inner, outer), t);
      Spine(m, root, o, inner.up, outer, Wrap(inner, t));
    }
  }

  /** Balance does not depend on which cells the context is made of. */
  lemma {:induction false} SpineBalance(inner: Ctx<Ptr>, l: Tree<Ptr>, x: Ptr, y: Ptr, k: Color, c: Ctx<Ptr>, h: nat)
    ensures BalancedCtx(Append(inner, InRight(l, x, k, c)), h) <==> BalancedCtx(Append(inner, InRight(l, y, k, c)), h)
    ensures Append(inner, InRight(l, x, k, c)).Top? <==> Append(inner, InRight(l, y, k, c)).Top?
    ensures CtxRed(Append(inner, InRight(l, x, k, c))) <==> CtxRed(Append(inner, InRight(l, y, k, c)))
    decreases inner
  {
    if !inner.Top? {
      SpineBalance(inner.up, l, x, y, k, c, h + Rise(inner.color));
    }
  }

  lemma ReplaceParts(o: seq<Ptr>, c: Ctx<Ptr>, l: Tree<Ptr>, x: Ptr, k: Color, t: Tree<Ptr>, s: Ptr)
    requires Shape(o, c, Node(l, x, k, t)) && s !in Members(o)
    ensures Sep(l) && Sep(t) && Sep(Node(l, s, k, t)) && SepCtx(c) && Elems(Node(l, s, k, t)) !! CtxElems(c)
    ensures var w := {s, x} + PtrSet(RootPtr(l)) + PtrSet(RootPtr(t)) + PtrSet(CtxPtr(c));
            w !! (Elems(l) - {RootPtr(l)}) && w !! (Elems(t) - {RootPtr(t)}) && w !! (CtxElems(c) - {CtxPtr(c)})
  {
    hide InOrder, Before, After;
    assert s !in Elems(l) && s !in Elems(t) && s !in CtxElems(c);
    hide Members;
  }

  /** Cell `s` takes the place of cell `x`. */
  lemma ReplaceLinks(m: Mem, m': Mem, root: Ptr, root': Ptr, o: seq<Ptr>, c: Ctx<Ptr>, l: Tree<Ptr>, x: Ptr, k: Color,
                     t: Tree<Ptr>, s: Ptr)
    requires At(m, root, o, c, Node(l, x, k, t)) && s !in Members(o) && s != NULL
    requires Rehung(m, m', root, root', c, s)
    requires s in m' && m'[s] == Links(CtxPtr(c), k, RootPtr(l), RootPtr(t))
    requires l.Node? ==> l.item in m && l.item in m' && m'[l.item] == m[l.item].(parent := s)
    requires t.Node? ==> t.item in m && t.item in m' && m'[t.item] == m[t.item].(parent := s)
    requires Changed(m, m', {s, x} + PtrSet(RootPtr(l)) + PtrSet(RootPtr(t)) + PtrSet(CtxPtr(c)))
    ensures At(m', root', Before(c) + InOrder(Node(l, s, k, t)) + After(c), c, Node(l, s, k, t))
  {
    var w := {s, x} + PtrSet(RootPtr(l)) + PtrSet(RootPtr(t)) + PtrSet(CtxPtr(c));
    ReplaceParts(o, c, l, x, k, t, s);
    hide Sep, SepCtx, Elems, CtxElems, Changed, PtrSet, Members, InOrder, Before, After;
    ChangedSame(m, m', w, Elems(l) - {RootPtr(l)});
    ChangedSame(m, m', w, Elems(t) - {RootPtr(t)});
    ChangedSame(m, m', w, CtxElems(c) - {CtxPtr(c)});
    Reparented(m, m', l, x, s);
    Reparented(m, m', t, x, s);
    RehungHolds(m, m', root, root', c, x, s);
    ShapeOf(c, Node(l, s, k, t));
  }

  /** The cells a splice touches: the erased cell, its successor, the left child, the successor's
      right child, the successor's parent, the right child, and the cell above. */
  datatype Site = Site(gone: Ptr, succ: Ptr, left: Ptr, child: Ptr, parent: Ptr, top: Ptr, above: Ptr)

  /** Which of these cells can be the same. */
  ghost predicate SiteDistinct(p: Site) {
    && p.gone != p.succ && p.left !in {p.gone, p.succ} && p.parent !in {p.succ, p.left}
    && (p.parent == p.gone <==> p.top == p.succ) && p.top !in {p.gone, p.left}
    && (p.child != NULL ==> p.child !in {p.gone, p.succ, p.left, p.parent, p.top})
    && (p.above != NULL ==> p.above !in {p.gone, p.succ, p.left, p.parent, p.top, p.child})
  }

  ghost predicate SiteOk(m: Mem, p: Site) {
    && p.gone != NULL && p.succ != NULL && p.left != NULL && p.parent != NULL && p.top != NULL
    && p.gone in m && p.succ in m && p.left in m && p.parent in m && p.top in m
    && (p.child != NULL ==> p.child in m) && (p.above != NULL ==> p.above in m)
    && SiteDistinct(p)
    && m[p.gone].left == p.left && m[p.gone].right == p.top && m[p.gone].parent == p.above
    && m[p.succ].right == p.child && m[p.succ].parent == p.parent
  }

  /** The cells after the splice, `m` being the cells before; `also` are further cells that changed. */
  ghost predicate Spliced(m: Mem, m': Mem, p: Site, also: set<Ptr>)
    requires SiteOk(m, p)
  {
    && m'.Keys == m.Keys
    && Changed(m, m', {p.succ, p.left, p.parent, p.top} + PtrSet(p.child) + also)
    && m'[p.left] == m[p.left].(parent := p.succ)
    && m'[p.succ] == m[p.gone].(right := if p.parent == p.gone then p.child else p.top)
    && (p.parent == p.gone ==> (p.child != NULL ==> m'[p.child] == m[p.child]))
    && (p.parent != p.gone ==> && (p.child != NULL ==> m'[p.child] == m[p.child].(parent := p.parent))
                               && m'[p.top] == (if p.top == p.parent then m[p.top].(left := p.child, parent := p.succ)
                                                                     else m[p.top].(parent := p.succ))
                               && (p.top != p.parent ==> m'[p.parent] == m[p.parent].(left := p.child)))
  }

  /** The pointer assignments that put the successor in the place of the erased cell. */
  method SpliceCells(f: Forest, gone: Ptr, succ: Ptr, r: nat, ghost p: Site, ghost c: Ctx<Ptr>)
    returns (child: Ptr, parent: Ptr, color: Color)
    requires r < |f.roots| && SiteOk(f.mem, p) && p.gone == gone && p.succ == succ
    requires p.above == CtxPtr(c) && (!c.Top? ==> p.above != NULL) && Sided(f.mem, c, gone)
    modifies f
    ensures f.Elsewhere(r) && Spliced(old(f.mem), f.mem, p, PtrSet(p.above))
    ensures Rehung(old(f.mem), f.mem, old(f.roots)[r], f.roots[r], c, succ)
    ensures child == p.child && parent == (if p.parent == gone then succ else p.parent)
            && color == old(f.mem)[succ].color
  {
    hide Elems, CtxElems;
    f.ReplaceChild(f.mem[gone].parent, gone, succ, r, c);
    child, parent, color := MoveCells(f, gone, succ, p);
  }

  /** The assignments below the erased cell. */
  method MoveCells(f: Forest, gone: Ptr, succ: Ptr, ghost p: Site) returns (child: Ptr, parent: Ptr, color: Color)
    requires SiteOk(f.mem, p) && p.gone == gone && p.succ == succ
    modifies f`mem
    ensures Spliced(old(f.mem), f.mem, p, {})
    ensures child == p.child && parent == (if p.parent == gone then succ else p.parent)
            && color == old(f.mem)[succ].color
  {
    child, parent, color := f.mem[succ].right, f.mem[succ].parent, f.mem[succ].color;
    if parent == gone {
      parent := succ;
    } else {
      Detach(f, child, parent, gone, succ);
    }
    TakePlace(f, gone, succ);
  }

  /** The successor lies deeper: its child goes to its parent, and it gets the right subtree. */
  method Detach(f: Forest, child: Ptr, parent: Ptr, gone: Ptr, succ: Ptr)
    requires gone in f.mem && succ in f.mem && parent in f.mem && f.mem[gone].right != NULL
    requires f.mem[gone].right in f.mem
    requires child != NULL ==> child in f.mem && child !in {parent, gone, succ, f.mem[gone].right}
    requires gone !in {parent, succ} && succ !in {parent, f.mem[gone].right} && gone != f.mem[gone].right
    modifies f`mem
    ensures f.mem.Keys == old(f.mem).Keys
    ensures Changed(old(f.mem), f.mem, {succ, parent, old(f.mem)[gone].right} + PtrSet(child))
    ensures child != NULL ==> f.mem[child] == old(f.mem)[child].(parent := parent)
    ensures f.mem[succ] == old(f.mem)[succ].(right := old(f.mem)[gone].right)
    ensures var top := old(f.mem)[gone].right;
            if top == parent then f.mem[top] == old(f.mem)[top].(left := child, parent := succ)
            else f.mem[top] == old(f.mem)[top].(parent := succ) && f.mem[parent] == old(f.mem)[parent].(left := child)
  {
    f.SetParent(child, parent);
    f.mem := f.mem[parent := f.mem[parent].(left := child)];
    f.mem := f.mem[succ := f.mem[succ].(right := f.mem[gone].right)];
    f.SetParent(f.mem[gone].right, succ);
  }

  /** The successor gets the parent, the colour and the left subtree of the erased cell. */
  method TakePlace(f: Forest, gone: Ptr, succ: Ptr)
    requires gone in f.mem && succ in f.mem && f.mem[gone].left != NULL && f.mem[gone].left in f.mem
    requires gone != succ && f.mem[gone].left !in {gone, succ}
    modifies f`mem
    ensures f.mem == old(f.mem)[succ := old(f.mem)[gone].(right := old(f.mem)[succ].right)]
                     [old(f.mem)[gone].left := old(f.mem)[old(f.mem)[gone].left].(parent := succ)]
  {
    f.mem := f.mem[succ := f.mem[succ].(parent := f.mem[gone].parent, color := f.mem[gone].color)];
    f.mem := f.mem[succ := f.mem[succ].(left := f.mem[gone].left)];
    f.SetParent(f.mem[gone].left, succ);
  }

  predicate LeftSpine(c: Ctx<Ptr>) {
    c.Top? || (c.InLeft? && LeftSpine(c.up))
  }

  lemma {:induction false} SpineRoot(sp: Ctx<Ptr>, t: Tree<Ptr>, u: Tree<Ptr>)
    requires !sp.Top?
    ensures Plug(sp, t).Node? && Plug(sp, u).Node? && Plug(sp, t).item == Plug(sp, u).item
    ensures Plug(sp, t).item in CtxElems(sp)
    decreases sp
  {
    if !sp.up.Top? {
      SpineRoot(sp.up, Wrap(sp, t), Wrap(sp, u));
    }
  }

  /** Where the erased cell, its successor and their neighbours are. */
  ghost function SiteOf(c: Ctx<Ptr>, l: Tree<Ptr>, gone: Ptr, sp: Ctx<Ptr>, succ: Ptr, ch: Tree<Ptr>): Site {
    Site(gone, succ, RootPtr(l), RootPtr(ch), if sp.Top? then gone else sp.item,
         RootPtr(Plug(sp, Node(Leaf, succ, Black, ch))), CtxPtr(c))
  }

  lemma {:induction false} SepAppend(inner: Ctx<Ptr>, outer: Ctx<Ptr>)
    requires SepCtx(Append(inner, outer))
    ensures SepCtx(outer) && CtxElems(inner) !! CtxElems(outer)
    decreases inner
  {
    AppendElems(inner, outer);
    if !inner.Top? {
      SepAppend(inner.up, outer);
      AppendElems(inner.up, outer);
    }
  }

  /** The parts around the two cells share no cell. */
  lemma SiteParts(w: set<Ptr>, c: Ctx<Ptr>, l: Tree<Ptr>, gone: Ptr, k: Color, sp: Ctx<Ptr>, succ: Ptr, j: Color,
                  ch: Tree<Ptr>)
    requires Sep(Node(Leaf, succ, j, ch)) && SepCtx(Append(sp, InRight(l, gone, k, c)))
    requires Elems(Node(Leaf, succ, j, ch)) !! CtxElems(Append(sp, InRight(l, gone, k, c)))
    requires Elems(Node(Leaf, succ, j, ch)) + CtxElems(Append(sp, InRight(l, gone, k, c))) == w
    ensures gone != succ && {gone, succ} !! Elems(l) && {gone, succ} !! Elems(ch) && {gone, succ} !! CtxElems(sp)
    ensures {gone, succ} !! CtxElems(c)
    ensures Elems(l) !! Elems(ch) && Elems(l) !! CtxElems(sp) && Elems(l) !! CtxElems(c)
    ensures Elems(ch) !! CtxElems(sp) && Elems(ch) !! CtxElems(c) && CtxElems(sp) !! CtxElems(c)
    ensures gone in w && succ in w && Elems(l) <= w && Elems(ch) <= w && CtxElems(sp) <= w && CtxElems(c) <= w
  {
    var outer := InRight(l, gone, k, c);
    AppendElems(sp, outer);
    SepAppend(sp, outer);
    assert CtxElems(outer) == {gone} + Elems(l) + CtxElems(c);
    assert Elems(Node(Leaf, succ, j, ch)) == {succ} + Elems(ch);
    PartsApart(gone, succ, Elems(l), Elems(ch), CtxElems(sp), CtxElems(c));
  }

  lemma PartsApart(gone: Ptr, succ: Ptr, l: set<Ptr>, ch: set<Ptr>, sp: set<Ptr>, c: set<Ptr>)
    requires {succ} + ch !! sp + ({gone} + l + c) && sp !! {gone} + l + c
    requires gone !in l && gone !in c && l !! c && succ !in ch
    ensures gone != succ && {gone, succ} !! l && {gone, succ} !! ch && {gone, succ} !! sp && {gone, succ} !! c
    ensures l !! ch && l !! sp && l !! c && ch !! sp && ch !! c && sp !! c
  {
  }

  /** What the cells say about the two cells and their neighbours. */
  lemma SiteCells(m: Mem, root: Ptr, o: seq<Ptr>, c: Ctx<Ptr>, l: Tree<Ptr>, gone: Ptr, k: Color, sp: Ctx<Ptr>,
                  succ: Ptr, j: Color, ch: Tree<Ptr>)
    requires At(m, root, o, Append(sp, InRight(l, gone, k, c)), Node(Leaf, succ, j, ch))
    ensures succ != NULL && succ in m && m[succ] == Links(if sp.Top? then gone else sp.item, j, NULL, RootPtr(ch))
    ensures gone != NULL && gone in m
    ensures m[gone] == Links(CtxPtr(c), k, RootPtr(l), RootPtr(Plug(sp, Node(Leaf, succ, j, ch))))
    ensures Holds(m, l, gone) && Holds(m, ch, succ) && HoldsCtx(m, root, c, gone)
    ensures !sp.Top? ==> sp.item != NULL && sp.item in m
    ensures Holds(m, Plug(sp, Node(Leaf, succ, j, ch)), gone)
  {
    Spine(m, root, o, sp, InRight(l, gone, k, c), Node(Leaf, succ, j, ch));
    assert At(m, root, o, InRight(l, gone, k, c), Plug(sp, Node(Leaf, succ, j, ch)));
  }

  lemma SiteApartCells(w: set<Ptr>, c: Ctx<Ptr>, l: Tree<Ptr>, gone: Ptr, k: Color, sp: Ctx<Ptr>, succ: Ptr, j: Color,
                       ch: Tree<Ptr>)
    requires Sep(Node(Leaf, succ, j, ch)) && SepCtx(Append(sp, InRight(l, gone, k, c))) && l.Node?
    requires Elems(Node(Leaf, succ, j, ch)) !! CtxElems(Append(sp, InRight(l, gone, k, c)))
    requires Elems(Node(Leaf, succ, j, ch)) + CtxElems(Append(sp, InRight(l, gone, k, c))) == w
    ensures SiteDistinct(SiteOf(c, l, gone, sp, succ, ch)) && gone !in CtxElems(c)
  {
    hide Sep, SepCtx, Append, SiteDistinct;
    SiteParts(w, c, l, gone, k, sp, succ, j, ch);
    if !sp.Top? {
      SpineRoot(sp, Node(Leaf, succ, j, ch), Node(Leaf, succ, Black, ch));
    }
    PointersApart(SiteOf(c, l, gone, sp, succ, ch), Elems(l), Elems(ch), CtxElems(sp), CtxElems(c));
  }

  lemma PointersApart(p: Site, l: set<Ptr>, ch: set<Ptr>, sp: set<Ptr>, c: set<Ptr>)
    requires p.gone != p.succ && {p.gone, p.succ} !! (l + ch + sp + c)
    requires l !! ch && l !! sp && l !! c && ch !! sp && ch !! c && sp !! c
    requires p.left in l && (p.child != NULL ==> p.child in ch) && (p.above != NULL ==> p.above in c)
    requires (p.parent == p.gone && p.top == p.succ) || (p.parent in sp && p.top in sp)
    ensures SiteDistinct(p)
  {
  }

  lemma SidedHole(m: Mem, root: Ptr, c: Ctx<Ptr>, hole: Ptr)
    requires HoldsCtx(m, root, c, hole) && hole != NULL && hole !in CtxElems(c)
    ensures Sided(m, c, hole) && (!c.Top? ==> c.item != NULL && c.item in m)
  {
  }

  lemma SiteApart(m: Mem, root: Ptr, o: seq<Ptr>, c: Ctx<Ptr>, l: Tree<Ptr>, gone: Ptr, k: Color, sp: Ctx<Ptr>,
                  succ: Ptr, j: Color, ch: Tree<Ptr>)
    requires At(m, root, o, Append(sp, InRight(l, gone, k, c)), Node(Leaf, succ, j, ch)) && l.Node?
    ensures SiteOk(m, SiteOf(c, l, gone, sp, succ, ch)) && Sided(m, c, gone)
    ensures !c.Top? ==> c.item != NULL && c.item in m
    ensures ch.Node? ==> ch.item != NULL && ch.item in m
  {
    hide SiteDistinct, Elems, CtxElems, InOrder, Before, After;
    SiteApartCells(Members(o), c, l, gone, k, sp, succ, j, ch);
    SiteCells(m, root, o, c, l, gone, k, sp, succ, j, ch);
    SidedHole(m, root, c, gone);
    if !sp.Top? {
      SpineRoot(sp, Node(Leaf, succ, j, ch), Node(Leaf, succ, Black, ch));
    }
  }

  /** The cells once the successor's child has moved up and before the successor is moved. */
  ghost function Between(m: Mem, p: Site): Mem
    requires SiteOk(m, p)
  {
    var m1 := if p.child == NULL then m else m[p.child := m[p.child].(parent := p.parent)];
    m1[p.parent := if p.parent == p.gone then m1[p.parent].(right := p.child) else m1[p.parent].(left := p.child)]
  }

  lemma {:induction false} SpineOrder(sp: Ctx<Ptr>, succ: Ptr, j: Color, ch: Tree<Ptr>)
    requires LeftSpine(sp)
    ensures InOrder(Plug(sp, Node(Leaf, succ, j, ch))) == [succ] + InOrder(Plug(sp, ch))
  {
    PlugInOrder(sp, Node(Leaf, succ, j, ch));
    PlugInOrder(sp, ch);
    SpineBefore(sp);
  }

  lemma {:induction false} SpineBefore(sp: Ctx<Ptr>)
    requires LeftSpine(sp)
    ensures Before(sp) == []
  {
    if !sp.Top? { SpineBefore(sp.up); }
  }

  lemma SpliceUnlink(m: Mem, root: Ptr, o: seq<Ptr>, c: Ctx<Ptr>, l: Tree<Ptr>, gone: Ptr, k: Color, sp: Ctx<Ptr>,
                     succ: Ptr, j: Color, ch: Tree<Ptr>) returns (o1: seq<Ptr>)
    requires At(m, root, o, Append(sp, InRight(l, gone, k, c)), Node(Leaf, succ, j, ch)) && l.Node? && LeftSpine(sp)
    ensures SiteOk(m, SiteOf(c, l, gone, sp, succ, ch))
    ensures At(Between(m, SiteOf(c, l, gone, sp, succ, ch)), root, o1, c, Node(l, gone, k, Plug(sp, ch)))
    ensures succ !in Members(o1)
  {
    SiteApart(m, root, o, c, l, gone, k, sp, succ, j, ch);
    var m1 := Between(m, SiteOf(c, l, gone, sp, succ, ch));
    var outer := InRight(l, gone, k, c);
    var d := Append(sp, outer);
    UnlinkLinks(m, m1, root, root, o, d, Node(Leaf, succ, j, ch), succ, ch);
    o1 := Before(d) + InOrder(ch) + After(d);
    Spine(m1, root, o1, sp, outer, ch);
    ZoomRight(m1, root, o1, c, l, gone, k, Plug(sp, ch));
  }

  lemma BetweenChanged(m: Mem, m': Mem, p: Site)
    requires SiteOk(m, p) && Spliced(m, m', p, PtrSet(p.above))
    ensures var last := if p.parent == p.gone then p.child else p.top;
            Changed(Between(m, p), m', {p.succ, p.gone} + PtrSet(p.left) + PtrSet(last) + PtrSet(p.above))
  {
  }

  lemma SpliceReplace(m: Mem, m': Mem, root: Ptr, root': Ptr, o1: seq<Ptr>, c: Ctx<Ptr>, l: Tree<Ptr>, gone: Ptr,
                      k: Color, sp: Ctx<Ptr>, succ: Ptr, ch: Tree<Ptr>)
    requires l.Node? && LeftSpine(sp) && SiteOk(m, SiteOf(c, l, gone, sp, succ, ch))
    requires At(Between(m, SiteOf(c, l, gone, sp, succ, ch)), root, o1, c, Node(l, gone, k, Plug(sp, ch)))
    requires succ !in Members(o1) && m[gone].color == k
    requires Spliced(m, m', SiteOf(c, l, gone, sp, succ, ch), PtrSet(CtxPtr(c))) && Rehung(m, m', root, root', c, succ)
    requires !c.Top? ==> c.item != NULL
    requires ch.Node? ==> ch.item != NULL && ch.item in m && m[ch.item].parent == succ
    ensures At(m', root', Before(c) + InOrder(Node(l, succ, k, Plug(sp, ch))) + After(c), c,
               Node(l, succ, k, Plug(sp, ch)))
  {
    hide Shape, InOrder, Before, After, Elems, CtxElems;
    var p := SiteOf(c, l, gone, sp, succ, ch);
    var m1 := Between(m, p);
    if !sp.Top? {
      SpineRoot(sp, ch, Node(Leaf, succ, Black, ch));
    }
    BetweenChanged(m, m', p);
    ReplaceLinks(m1, m', root, root', o1, c, l, gone, k, Plug(sp, ch), succ);
  }

  /** Puts the successor in the place of `gone`; the focus is then on what the successor left behind. */
  method Splice(f: Forest, gone: Ptr, succ: Ptr, r: nat, ghost o: seq<Ptr>, ghost c: Ctx<Ptr>, ghost l: Tree<Ptr>,
                ghost k: Color, ghost sp: Ctx<Ptr>, ghost j: Color, ghost ch: Tree<Ptr>)
    returns (child: Ptr, parent: Ptr, color: Color, ghost o': seq<Ptr>)
    requires r < |f.roots| && l.Node? && LeftSpine(sp)
    requires At(f.mem, f.roots[r], o, Append(sp, InRight(l, gone, k, c)), Node(Leaf, succ, j, ch))
    modifies f
    ensures f.Only(r, o)
    ensures o' == Before(c) + InOrder(l) + InOrder(Plug(sp, Node(Leaf, succ, j, ch))) + After(c)
    ensures At(f.mem, f.roots[r], o', Append(sp, InRight(l, succ, k, c)), ch)
    ensures child == RootPtr(ch) && parent == CtxPtr(Append(sp, InRight(l, succ, k, c))) && color == j
  {
    hide SiteOk, Spliced, Rehung, Sided;
    ghost var m, root := f.mem, f.roots[r];
    ghost var p := SiteOf(c, l, gone, sp, succ, ch);
    SiteApart(m, root, o, c, l, gone, k, sp, succ, j, ch);
    SiteCells(m, root, o, c, l, gone, k, sp, succ, j, ch);
    ghost var o1 := SpliceUnlink(m, root, o, c, l, gone, k, sp, succ, j, ch);
    child, parent, color := SpliceCells(f, gone, succ, r, p, c);
    SpliceReplace(m, f.mem, root, f.roots[r], o1, c, l, gone, k, sp, succ, ch);
    o' := SpliceFocus(f.mem, f.roots[r], c, l, k, sp, succ, j, ch);
    SiteTouched(m, f.mem, Members(o), c, l, gone, k, sp, succ, j, ch);
  }

  /** Moves the focus back down the spine. */
  lemma SpliceFocus(m: Mem, root: Ptr, c: Ctx<Ptr>, l: Tree<Ptr>, k: Color, sp: Ctx<Ptr>, succ: Ptr, j: Color,
                    ch: Tree<Ptr>) returns (o: seq<Ptr>)
    requires LeftSpine(sp)
    requires At(m, root, Before(c) + InOrder(Node(l, succ, k, Plug(sp, ch))) + After(c), c,
                Node(l, succ, k, Plug(sp, ch)))
    ensures o == Before(c) + InOrder(l) + InOrder(Plug(sp, Node(Leaf, succ, j, ch))) + After(c)
    ensures At(m, root, o, Append(sp, InRight(l, succ, k, c)), ch)
  {
    o := Before(c) + InOrder(Node(l, succ, k, Plug(sp, ch))) + After(c);
    ZoomRight(m, root, o, c, l, succ, k, Plug(sp, ch));
    Spine(m, root, o, sp, InRight(l, succ, k, c), ch);
    SpineOrder(sp, succ, j, ch);
    Regroup(Before(c), InOrder(l), [succ], InOrder(Plug(sp, ch)), After(c));
  }

  lemma Regroup(a: seq<Ptr>, b: seq<Ptr>, c: seq<Ptr>, d: seq<Ptr>, e: seq<Ptr>)
    ensures a + (b + c + d) + e == a + b + (c + d) + e
  {
  }

  lemma SiteTouched(m: Mem, m': Mem, w: set<Ptr>, c: Ctx<Ptr>, l: Tree<Ptr>, gone: Ptr, k: Color, sp: Ctx<Ptr>,
                    succ: Ptr, j: Color, ch: Tree<Ptr>)
    requires Sep(Node(Leaf, succ, j, ch)) && SepCtx(Append(sp, InRight(l, gone, k, c)))
    requires Elems(Node(Leaf, succ, j, ch)) !! CtxElems(Append(sp, InRight(l, gone, k, c)))
    requires Elems(Node(Leaf, succ, j, ch)) + CtxElems(Append(sp, InRight(l, gone, k, c))) == w && l.Node?
    requires SiteOk(m, SiteOf(c, l, gone, sp, succ, ch))
    requires Spliced(m, m', SiteOf(c, l, gone, sp, succ, ch), PtrSet(CtxPtr(c)))
    ensures Changed(m, m', w)
  {
    SiteParts(w, c, l, gone, k, sp, succ, j, ch);
    if !sp.Top? {
      SpineRoot(sp, ch, Node(Leaf, succ, Black, ch));
    }
  }

  // ---- erasing ------------------------------------------------------------------------------------

  /** The black height still matches, or `ch` is one black cell short. */
  method Rebalance(f: Forest, child: Ptr, parent: Ptr, color: Color, r: nat, ghost o: seq<Ptr>, ghost c: Ctx<Ptr>,
                   ghost ch: Tree<Ptr>, ghost h: nat)
    returns (ghost t: Tree<Ptr>)
    requires r < |f.roots| && At(f.mem, f.roots[r], o, c, ch) && BalancedCtx(c, h)
    requires color.Red? ==> Balanced(ch, h) && !IsRed(ch)
    requires color.Black? ==> h > 0 && Balanced(ch, h - 1)
    requires RootPtr(ch) == child && CtxPtr(c) == parent
    modifies f
    ensures f.Only(r, o)
    ensures At(f.mem, f.roots[r], o, Top, t) && Valid(t)
  {
    if color == Black {
      t := EraseColor(f, child, parent, r, o, c, ch, h - 1);
    } else {
      PlugValid(c, ch, h);
      t := AtPlug(f.mem, f.roots[r], o, c, ch);
    }
  }

  /** What fits in place of a cell with at most one child. */
  lemma UnlinkBalance(c: Ctx<Ptr>, t: Tree<Ptr>, h: nat, x: Ptr, ch: Tree<Ptr>)
    requires Fits(c, t, h) && OnlyChild(t, x, ch)
    ensures BalancedCtx(c, h)
    ensures t.color.Red? ==> Balanced(ch, h) && !IsRed(ch)
    ensures t.color.Black? ==> h > 0 && Balanced(ch, h - 1)
  {
  }

  lemma Shorter(a: seq<Ptr>, b: seq<Ptr>, m: Mem, m1: Mem, m2: Mem)
    requires Changed(m, m1, Members(a)) && Changed(m1, m2, Members(b)) && Members(b) <= Members(a)
    ensures Changed(m, m2, Members(a))
  {
  }

  /** Erases a cell with at most one child. */
  method EraseOuter(f: Forest, node: Ptr, child: Ptr, r: nat, ghost o: seq<Ptr>, ghost c: Ctx<Ptr>, ghost t: Tree<Ptr>,
                    ghost ch: Tree<Ptr>, ghost h: nat)
    returns (ghost t': Tree<Ptr>)
    requires r < |f.roots| && At(f.mem, f.roots[r], o, c, t) && OnlyChild(t, node, ch) && child == RootPtr(ch)
    requires Fits(c, t, h)
    modifies f
    ensures f.Only(r, o)
    ensures At(f.mem, f.roots[r], Before(c) + InOrder(t.left) + InOrder(t.right) + After(c), Top, t') && Valid(t')
  {
    OnlyChildOrder(c, t, node, ch);
    UnlinkPivot(f.mem, f.roots[r], o, c, t, node, ch);
    UnlinkBalance(c, t, h, node, ch);
    var parent, color := f.mem[node].parent, f.mem[node].color;
    ghost var o' := Before(c) + InOrder(ch) + After(c);
    Unlink(f, node, child, parent, r, o, c, t, ch);
    ghost var m1 := f.mem;
    t' := Rebalance(f, child, parent, color, r, o', c, ch, h);
    assert Members(o') <= Members(o) by { OrderShrinks(o, c, t, ch); }
    Shorter(o, o', old(f.mem), m1, f.mem);
  }

  lemma OnlyChildOrder(c: Ctx<Ptr>, t: Tree<Ptr>, x: Ptr, ch: Tree<Ptr>)
    requires OnlyChild(t, x, ch)
    ensures Before(c) + InOrder(t.left) + InOrder(t.right) + After(c) == Before(c) + InOrder(ch) + After(c)
  {
  }

  lemma OrderShrinks(o: seq<Ptr>, c: Ctx<Ptr>, t: Tree<Ptr>, ch: Tree<Ptr>)
    requires Before(c) + InOrder(t) + After(c) == o && t.Node? && (ch == t.left || ch == t.right)
    ensures Members(Before(c) + InOrder(ch) + After(c)) <= Members(o)
  {
    InOrderElems(t);
    InOrderElems(ch);
    assert InOrder(t) == InOrder(t.left) + [t.item] + InOrder(t.right);
    forall x | x in Before(c) + InOrder(ch) + After(c) ensures x in o {
    }
  }

  /** Walks to the leftmost cell of the right subtree. */
  method Successor(f: Forest, node: Ptr, r: nat, ghost o: seq<Ptr>, ghost c: Ctx<Ptr>, ghost t: Tree<Ptr>, ghost h: nat)
    returns (succ: Ptr, ghost sp: Ctx<Ptr>, ghost u: Tree<Ptr>, ghost j: nat)
    requires r < |f.roots| && At(f.mem, f.roots[r], o, c, t) && t.Node? && t.item == node && t.right.Node?
    requires Fits(c, t, h)
    ensures LeftSpine(sp) && u.Node? && u.left.Leaf? && u.item == succ && t.right == Plug(sp, u)
    ensures At(f.mem, f.roots[r], o, Append(sp, InRight(t.left, node, t.color, c)), u)
    ensures Fits(Append(sp, InRight(t.left, node, t.color, c)), u, j)
  {
    hide Shape, Sep, SepCtx, Elems, CtxElems, InOrder;
    ghost var outer := InRight(t.left, node, t.color, c);
    HeadReads(f.mem, t, CtxPtr(c));
    succ, sp, u, j := f.mem[node].right, Top, t.right, h - Rise(t.color);
    FitsDown(c, t, h);
    ZoomRight(f.mem, f.roots[r], o, c, t.left, node, t.color, u);
    HeadReads(f.mem, u, node);
    while f.mem[succ].left != NULL
      invariant LeftSpine(sp) && u.Node? && u.item == succ && t.right == Plug(sp, u)
      invariant At(f.mem, f.roots[r], o, Append(sp, outer), u) && Fits(Append(sp, outer), u, j)
      invariant Reads(f.mem, u)
      decreases u
    {
      ZoomLeft(f.mem, f.roots[r], o, Append(sp, outer), u.left, succ, u.color, u.right);
      FitsDown(Append(sp, outer), u, j);
      HeadReads(f.mem, u.left, succ);
      sp, j := InLeft(succ, u.color, u.right, sp), j - Rise(u.color);
      u := u.left;
      succ := f.mem[succ].left;
    }
  }

  /** Erases a cell with two children: its successor takes its place. */
  method EraseInner(f: Forest, node: Ptr, r: nat, ghost o: seq<Ptr>, ghost c: Ctx<Ptr>, ghost t: Tree<Ptr>,
                    ghost h: nat)
    returns (ghost t': Tree<Ptr>)
    requires r < |f.roots| && At(f.mem, f.roots[r], o, c, t) && t.Node? && t.item == node && Fits(c, t, h)
    requires t.left.Node? && t.right.Node?
    modifies f
    ensures f.Only(r, o)
    ensures At(f.mem, f.roots[r], Before(c) + InOrder(t.left) + InOrder(t.right) + After(c), Top, t') && Valid(t')
  {
    var succ;
    ghost var sp, u, j;
    succ, sp, u, j := Successor(f, node, r, o, c, t, h);
    UnlinkBalance(Append(sp, InRight(t.left, node, t.color, c)), u, j, succ, u.right);
    SpineBalance(sp, t.left, node, succ, t.color, c, j);
    var child, parent, color;
    ghost var o';
    child, parent, color, o' := Splice(f, node, succ, r, o, c, t.left, t.color, sp, u.color, u.right);
    ghost var m1 := f.mem;
    t' := Rebalance(f, child, parent, color, r, o', Append(sp, InRight(t.left, succ, t.color, c)), u.right, j);
    assert Members(o') <= Members(o) by { OrderDrops(o, c, t); }
    Shorter(o, o', old(f.mem), m1, f.mem);
  }

  lemma OrderDrops(o: seq<Ptr>, c: Ctx<Ptr>, t: Tree<Ptr>)
    requires Before(c) + InOrder(t) + After(c) == o && t.Node?
    ensures Members(Before(c) + InOrder(t.left) + InOrder(t.right) + After(c)) <= Members(o)
  {
    assert InOrder(t) == InOrder(t.left) + [t.item] + InOrder(t.right);
    forall x | x in Before(c) + InOrder(t.left) + InOrder(t.right) + After(c) ensures x in o {
    }
  }

  /** Erases `node`: the others keep their order and the tree is a red-black tree again. */
  method Erase(f: Forest, node: Ptr, r: nat, ghost o: seq<Ptr>, ghost c: Ctx<Ptr>, ghost t: Tree<Ptr>, ghost h: nat)
    returns (ghost t': Tree<Ptr>)
    requires r < |f.roots| && At(f.mem, f.roots[r], o, c, t) && t.Node? && t.item == node && Fits(c, t, h)
    modifies f
    ensures f.Only(r, o)
    ensures At(f.mem, f.roots[r], Before(c) + InOrder(t.left) + InOrder(t.right) + After(c), Top, t') && Valid(t')
  {
    HeadReads(f.mem, t, CtxPtr(c));
    if f.mem[node].left == NULL {
      t' := EraseOuter(f, node, f.mem[node].right, r, o, c, t, t.right, h);
    } else if f.mem[node].right == NULL {
      t' := EraseOuter(f, node, f.mem[node].left, r, o, c, t, t.left, h);
    } else {
      t' := EraseInner(f, node, r, o, c, t, h);
    }
  }
}
