/** Red-black trees as linked cells, rebalanced in place. Each loop carries, as ghost values, the
    subtree it is working on and the context around it; `At` ties both to the cells. */
module RbHeap {
  import opened RbTree

  /** The address of a cell. */
  type Ptr = nat

  const NULL: Ptr := 0

  datatype Links = Links(parent: Ptr, color: Color, left: Ptr, right: Ptr)

  type Mem = map<Ptr, Links>

  function RootPtr(t: Tree<Ptr>): (p: Ptr)
    ensures t.Node? ==> p in Elems(t)
  {
    if t.Leaf? then NULL else t.item
  }

  function CtxPtr(c: Ctx<Ptr>): (p: Ptr)
    ensures !c.Top? ==> p in CtxElems(c)
  {
    if c.Top? then NULL else c.item
  }

  /** The cells of `t` are linked exactly as `t` says, below `parent`. */
  ghost predicate Holds(m: Mem, t: Tree<Ptr>, parent: Ptr) {
    match t
    case Leaf => true
    case Node(l, x, k, r) =>
      && x != NULL && x in m && m[x] == Links(parent, k, RootPtr(l), RootPtr(r))
      && Holds(m, l, x) && Holds(m, r, x)
  }

  /** The cells of the context are linked as `c` says, with `hole` hanging in its hole. */
  ghost predicate HoldsCtx(m: Mem, root: Ptr, c: Ctx<Ptr>, hole: Ptr) {
    match c
    case Top => root == hole
    case InLeft(x, k, r, up) =>
      && x != NULL && x in m && m[x] == Links(CtxPtr(up), k, hole, RootPtr(r))
      && Holds(m, r, x) && HoldsCtx(m, root, up, x)
    case InRight(l, x, k, up) =>
      && x != NULL && x in m && m[x] == Links(CtxPtr(up), k, RootPtr(l), hole)
      && Holds(m, l, x) && HoldsCtx(m, root, up, x)
  }

  /** No cell occurs twice. */
  ghost predicate Sep(t: Tree<Ptr>) {
    match t
    case Leaf => true
    case Node(l, x, _, r) => x !in Elems(l) && x !in Elems(r) && Elems(l) !! Elems(r) && Sep(l) && Sep(r)
  }

  ghost predicate SepCtx(c: Ctx<Ptr>) {
    match c
    case Top => true
    case InLeft(x, _, r, up) =>
      x !in Elems(r) && x !in CtxElems(up) && Elems(r) !! CtxElems(up) && Sep(r) && SepCtx(up)
    case InRight(l, x, _, up) =>
      x !in Elems(l) && x !in CtxElems(up) && Elems(l) !! CtxElems(up) && Sep(l) && SepCtx(up)
  }

  ghost function Members(o: seq<Ptr>): set<Ptr> {
    set x | x in o
  }

  /** `t` in context `c` holds each cell once, and `o` is the order they come in. */
  ghost predicate Shape(o: seq<Ptr>, c: Ctx<Ptr>, t: Tree<Ptr>) {
    && Sep(t) && SepCtx(c) && Elems(t) !! CtxElems(c)
    && Elems(t) + CtxElems(c) == Members(o)
    && Before(c) + InOrder(t) + After(c) == o
  }

  ghost predicate Linked(m: Mem, root: Ptr, c: Ctx<Ptr>, t: Tree<Ptr>) {
    Holds(m, t, CtxPtr(c)) && HoldsCtx(m, root, c, RootPtr(t))
  }

  /** The linked structure under `root` is `t` in context `c`, and `o` is its in-order sequence. */
  ghost predicate At(m: Mem, root: Ptr, o: seq<Ptr>, c: Ctx<Ptr>, t: Tree<Ptr>) {
    Linked(m, root, c, t) && Shape(o, c, t)
  }

  /** A cell and the cells on both sides of it, counted with the one side or with the other. */
  lemma Regroup(t: set<Ptr>, x: Ptr, s: set<Ptr>, c: set<Ptr>)
    ensures (x !in t && x !in s && t !! s && (t + {x} + s) !! c) <==>
            (x !in s && x !in c && s !! c && t !! (s + {x} + c))
    ensures (t + {x} + s) + c == t + (s + {x} + c)
  {
  }

  lemma ShapeLeft(o: seq<Ptr>, c: Ctx<Ptr>, t: Tree<Ptr>, x: Ptr, k: Color, r: Tree<Ptr>)
    ensures Shape(o, c, Node(t, x, k, r)) <==> Shape(o, InLeft(x, k, r, c), t)
  {
    Reassociate(Before(c), InOrder(t), [x], InOrder(r), After(c));
    Regroup(Elems(t), x, Elems(r), CtxElems(c));
    assert Elems(Node(t, x, k, r)) == Elems(t) + {x} + Elems(r);
    assert CtxElems(InLeft(x, k, r, c)) == Elems(r) + {x} + CtxElems(c);
    hide Elems, CtxElems, Members;
  }

  lemma ShapeRight(o: seq<Ptr>, c: Ctx<Ptr>, l: Tree<Ptr>, x: Ptr, k: Color, t: Tree<Ptr>)
    ensures Shape(o, c, Node(l, x, k, t)) <==> Shape(o, InRight(l, x, k, c), t)
  {
    Reassociate(Before(c), InOrder(l), [x], InOrder(t), After(c));
    Regroup(Elems(t), x, Elems(l), CtxElems(c));
    assert Elems(Node(l, x, k, t)) == Elems(t) + {x} + Elems(l);
    assert CtxElems(InRight(l, x, k, c)) == Elems(l) + {x} + CtxElems(c);
    hide Elems, CtxElems, Members;
  }

  lemma ZoomLeft(m: Mem, root: Ptr, o: seq<Ptr>, c: Ctx<Ptr>, t: Tree<Ptr>, x: Ptr, k: Color, r: Tree<Ptr>)
    ensures At(m, root, o, c, Node(t, x, k, r)) <==> At(m, root, o, InLeft(x, k, r, c), t)
  {
    hide Shape;
    ShapeLeft(o, c, t, x, k, r);
  }

  lemma ZoomRight(m: Mem, root: Ptr, o: seq<Ptr>, c: Ctx<Ptr>, l: Tree<Ptr>, x: Ptr, k: Color, t: Tree<Ptr>)
    ensures At(m, root, o, c, Node(l, x, k, t)) <==> At(m, root, o, InRight(l, x, k, c), t)
  {
    hide Shape;
    ShapeRight(o, c, l, x, k, t);
  }

  /** Moving the focus between a subtree and its parent changes nothing. */
  lemma Zoom(m: Mem, root: Ptr, o: seq<Ptr>, c: Ctx<Ptr>, t: Tree<Ptr>)
    requires !c.Top?
    ensures At(m, root, o, c, t) <==> At(m, root, o, c.up, Wrap(c, t))
  {
    match c
    case InLeft(x, k, r, up) => ZoomLeft(m, root, o, up, t, x, k, r);
    case InRight(l, x, k, up) => ZoomRight(m, root, o, up, l, x, k, t);
  }

  /** Moving the focus to the sibling changes nothing either. */
  lemma Sidestep(m: Mem, root: Ptr, o: seq<Ptr>, c: Ctx<Ptr>, t: Tree<Ptr>)
    requires !c.Top?
    ensures At(m, root, o, c, t) <==> At(m, root, o, Flip(c, t), Sibling(c))
  {
    Zoom(m, root, o, c, t);
    Zoom(m, root, o, Flip(c, t), Sibling(c));
  }

  lemma {:induction false} AtPlug(m: Mem, root: Ptr, o: seq<Ptr>, c: Ctx<Ptr>, t: Tree<Ptr>) returns (t': Tree<Ptr>)
    requires At(m, root, o, c, t)
    ensures t' == Plug(c, t) && At(m, root, o, Top, t')
    decreases c
  {
    if c.Top? {
      t' := t;
    } else {
      Zoom(m, root, o, c, t);
      t' := AtPlug(m, root, o, c.up, Wrap(c, t));
    }
  }

  // ---- order ------------------------------------------------------------------------------------

  lemma {:induction false} CtxOrder(c: Ctx<Ptr>)
    ensures CtxElems(c) == Members(Before(c)) + Members(After(c))
  {
    match c
    case Top =>
    case InLeft(x, _, r, up) => CtxOrder(up); InOrderElems(r);
    case InRight(l, x, _, up) => CtxOrder(up); InOrderElems(l);
  }

  lemma ShapeOf(c: Ctx<Ptr>, t: Tree<Ptr>)
    requires Sep(t) && SepCtx(c) && Elems(t) !! CtxElems(c)
    ensures Shape(Before(c) + InOrder(t) + After(c), c, t)
  {
    CtxOrder(c);
    InOrderElems(t);
  }

  // ---- frames -----------------------------------------------------------------------------------

  ghost predicate Same(m: Mem, m': Mem, s: set<Ptr>) {
    forall x :: x in s && x in m ==> x in m' && m'[x] == m[x]
  }

  lemma {:induction false} HoldsFrame(m: Mem, m': Mem, t: Tree<Ptr>, parent: Ptr)
    requires Holds(m, t, parent) && Same(m, m', Elems(t))
    ensures Holds(m', t, parent)
  {
    match t
    case Leaf =>
    case Node(l, x, _, r) => HoldsFrame(m, m', l, x); HoldsFrame(m, m', r, x);
  }

  lemma {:induction false} CtxFrame(m: Mem, m': Mem, root: Ptr, c: Ctx<Ptr>, hole: Ptr)
    requires HoldsCtx(m, root, c, hole) && Same(m, m', CtxElems(c))
    ensures HoldsCtx(m', root, c, hole)
  {
    match c
    case Top =>
    case InLeft(x, _, r, up) => HoldsFrame(m, m', r, x); CtxFrame(m, m', root, up, x);
    case InRight(l, x, _, up) => HoldsFrame(m, m', l, x); CtxFrame(m, m', root, up, x);
  }

  lemma {:induction false} HoldsNonNull(m: Mem, t: Tree<Ptr>, parent: Ptr)
    requires Holds(m, t, parent)
    ensures NULL !in Elems(t)
  {
    match t
    case Leaf =>
    case Node(l, x, _, r) => HoldsNonNull(m, l, x); HoldsNonNull(m, r, x);
  }

  lemma {:induction false} TreeCells(m: Mem, t: Tree<Ptr>, parent: Ptr)
    requires Holds(m, t, parent)
    ensures Elems(t) <= m.Keys
  {
    match t
    case Leaf =>
    case Node(l, x, _, r) => TreeCells(m, l, x); TreeCells(m, r, x);
  }

  lemma {:induction false} CtxCells(m: Mem, root: Ptr, c: Ctx<Ptr>, hole: Ptr)
    requires HoldsCtx(m, root, c, hole)
    ensures CtxElems(c) <= m.Keys
  {
    match c
    case Top =>
    case InLeft(x, _, r, up) => TreeCells(m, r, x); CtxCells(m, root, up, x);
    case InRight(l, x, _, up) => TreeCells(m, l, x); CtxCells(m, root, up, x);
  }

  /** Only the root of `t` changed, and only its parent link. */
  lemma Reparented(m: Mem, m': Mem, t: Tree<Ptr>, p: Ptr, q: Ptr)
    requires Holds(m, t, p) && Sep(t) && Same(m, m', Elems(t) - {RootPtr(t)})
    requires t.Node? ==> t.item in m' && m'[t.item] == m[t.item].(parent := q)
    ensures Holds(m', t, q)
  {
    match t
    case Leaf =>
    case Node(l, x, _, r) => HoldsFrame(m, m', l, x); HoldsFrame(m, m', r, x);
  }

  /** Only the innermost frame changed, and only in what hangs in its hole. */
  ghost predicate Rehung(m: Mem, m': Mem, root: Ptr, root': Ptr, c: Ctx<Ptr>, hole: Ptr) {
    match c
    case Top => root' == hole
    case InLeft(x, _, _, _) => root' == root && x in m && x in m' && m'[x] == m[x].(left := hole)
    case InRight(_, x, _, _) => root' == root && x in m && x in m' && m'[x] == m[x].(right := hole)
  }

  lemma RehungHolds(m: Mem, m': Mem, root: Ptr, root': Ptr, c: Ctx<Ptr>, hole: Ptr, hole': Ptr)
    requires HoldsCtx(m, root, c, hole) && SepCtx(c) && Rehung(m, m', root, root', c, hole')
    requires Same(m, m', CtxElems(c) - {CtxPtr(c)})
    ensures HoldsCtx(m', root', c, hole')
  {
    match c
    case Top =>
    case InLeft(x, _, r, up) => HoldsFrame(m, m', r, x); CtxFrame(m, m', root, up, x);
    case InRight(l, x, _, up) => HoldsFrame(m, m', l, x); CtxFrame(m, m', root, up, x);
  }

  lemma RotateSep(a: Tree<Ptr>, x: Ptr, k: Color, b: Tree<Ptr>, y: Ptr, j: Color, d: Tree<Ptr>)
    ensures Sep(Node(a, x, k, Node(b, y, j, d))) <==> Sep(Node(Node(a, x, k, b), y, j, d))
    ensures Elems(Node(a, x, k, Node(b, y, j, d))) == Elems(Node(Node(a, x, k, b), y, j, d))
  {
    var l, r := Node(a, x, k, b), Node(b, y, j, d);
    SepNode(a, x, k, r);
    SepNode(b, y, j, d);
    SepNode(l, y, j, d);
    SepNode(a, x, k, b);
    hide Sep, Elems;
    Regroup(Elems(a), x, Elems(b), {y} + Elems(d));
  }

  lemma SepNode(l: Tree<Ptr>, x: Ptr, k: Color, r: Tree<Ptr>)
    ensures Elems(Node(l, x, k, r)) == Elems(l) + {x} + Elems(r)
    ensures Sep(Node(l, x, k, r)) <==> x !in Elems(l) && x !in Elems(r) && Elems(l) !! Elems(r) && Sep(l) && Sep(r)
  {
  }

  lemma RotateShape(o: seq<Ptr>, c: Ctx<Ptr>, a: Tree<Ptr>, x: Ptr, k: Color, b: Tree<Ptr>, y: Ptr, j: Color,
                    d: Tree<Ptr>)
    ensures Shape(o, c, Node(a, x, k, Node(b, y, j, d))) <==> Shape(o, c, Node(Node(a, x, k, b), y, j, d))
  {
    hide Sep, SepCtx, Elems, CtxElems, Members;
    RotateSep(a, x, k, b, y, j, d);
    assert InOrder(Node(a, x, k, Node(b, y, j, d))) == InOrder(Node(Node(a, x, k, b), y, j, d)) by {
      assert InOrder(Node(b, y, j, d)) == InOrder(b) + [y] + InOrder(d);
      assert InOrder(Node(a, x, k, b)) == InOrder(a) + [x] + InOrder(b);
    }
  }

  /** The cells outside `s` kept their links. */
  ghost predicate Changed(m: Mem, m': Mem, s: set<Ptr>) {
    forall x :: x in m && x !in s ==> x in m' && m'[x] == m[x]
  }

  lemma ChangedSame(m: Mem, m': Mem, s: set<Ptr>, u: set<Ptr>)
    requires Changed(m, m', s) && s !! u
    ensures Same(m, m', u)
  {
  }

  ghost function PtrSet(p: Ptr): set<Ptr> {
    if p == NULL then {} else {p}
  }

  /** What a left rotation reads from the cells, and that the cells it writes are different ones. */
  lemma LeftPivot(m: Mem, root: Ptr, o: seq<Ptr>, c: Ctx<Ptr>, a: Tree<Ptr>, x: Ptr, k: Color, b: Tree<Ptr>, y: Ptr,
                  j: Color, d: Tree<Ptr>)
    requires At(m, root, o, c, Node(a, x, k, Node(b, y, j, d)))
    ensures x in m && m[x] == Links(CtxPtr(c), k, RootPtr(a), y)
    ensures y in m && m[y] == Links(x, j, RootPtr(b), RootPtr(d))
    ensures Apart(m, c, x, y, b) && Sided(m, c, x)
    ensures {x, y} + PtrSet(RootPtr(b)) + PtrSet(CtxPtr(c)) <= Members(o)
  {
    assert Holds(m, Node(b, y, j, d), x);
    assert Holds(m, b, y);
    assert Elems(Node(b, y, j, d)) == Elems(b) + {y} + Elems(d);
  }

  lemma RightPivot(m: Mem, root: Ptr, o: seq<Ptr>, c: Ctx<Ptr>, a: Tree<Ptr>, x: Ptr, k: Color, b: Tree<Ptr>, y: Ptr,
                   j: Color, d: Tree<Ptr>)
    requires At(m, root, o, c, Node(Node(a, x, k, b), y, j, d))
    ensures y in m && m[y] == Links(CtxPtr(c), j, x, RootPtr(d))
    ensures x in m && m[x] == Links(y, k, RootPtr(a), RootPtr(b))
    ensures Apart(m, c, x, y, b) && Sided(m, c, y)
    ensures {x, y} + PtrSet(RootPtr(b)) + PtrSet(CtxPtr(c)) <= Members(o)
  {
    assert Holds(m, Node(a, x, k, b), y);
    assert Holds(m, b, x);
    assert Elems(Node(a, x, k, b)) == Elems(a) + {x} + Elems(b);
  }

  ghost predicate Apart(m: Mem, c: Ctx<Ptr>, x: Ptr, y: Ptr, b: Tree<Ptr>) {
    && x != NULL && y != NULL && x != y
    && (b.Node? ==> b.item != NULL && b.item in m && b.item !in {x, y})
    && (!c.Top? ==> c.item != NULL && c.item in m && c.item !in {x, y, RootPtr(b)})
  }

  /** The innermost frame tells left from right by looking at its left link. */
  ghost predicate Sided(m: Mem, c: Ctx<Ptr>, hole: Ptr) {
    !c.Top? ==> c.item in m && (c.InLeft? <==> m[c.item].left == hole)
  }

  /** The cells that a rotation writes are apart from those it does not. */
  lemma SetsApart(a: set<Ptr>, b: set<Ptr>, d: set<Ptr>, c: set<Ptr>, x: Ptr, y: Ptr, p: Ptr, q: Ptr)
    requires a !! b && a !! d && a !! c && b !! d && b !! c && d !! c && {x, y} !! (a + b + d + c)
    requires (p == NULL || p in b) && (q == NULL || q in c)
    ensures var s := {x, y} + PtrSet(p) + PtrSet(q); s !! a && s !! d && s !! (b - {p}) && s !! (c - {q})
  {
  }

  lemma LeftHeld(m: Mem, root: Ptr, c: Ctx<Ptr>, a: Tree<Ptr>, x: Ptr, k: Color, b: Tree<Ptr>, y: Ptr, j: Color,
                 d: Tree<Ptr>)
    requires Linked(m, root, c, Node(a, x, k, Node(b, y, j, d)))
    ensures Holds(m, a, x) && Holds(m, b, y) && Holds(m, d, y) && HoldsCtx(m, root, c, x)
    ensures x != NULL && y != NULL
  {
    assert Holds(m, Node(b, y, j, d), x);
  }

  lemma LeftParts(c: Ctx<Ptr>, a: Tree<Ptr>, x: Ptr, k: Color, b: Tree<Ptr>, y: Ptr, j: Color, d: Tree<Ptr>)
    requires Sep(Node(a, x, k, Node(b, y, j, d))) && SepCtx(c) && Elems(Node(a, x, k, Node(b, y, j, d))) !! CtxElems(c)
    ensures Sep(b)
    ensures var s := {x, y} + PtrSet(RootPtr(b)) + PtrSet(CtxPtr(c));
            s !! Elems(a) && s !! Elems(d) && s !! (Elems(b) - {RootPtr(b)}) && s !! (CtxElems(c) - {CtxPtr(c)})
  {
    assert Sep(Node(b, y, j, d)) && Elems(Node(b, y, j, d)) == Elems(b) + {y} + Elems(d);
    SetsApart(Elems(a), Elems(b), Elems(d), CtxElems(c), x, y, RootPtr(b), CtxPtr(c));
  }

  lemma RotateLeftLinks(m: Mem, m': Mem, root: Ptr, root': Ptr, o: seq<Ptr>, c: Ctx<Ptr>, a: Tree<Ptr>, x: Ptr,
                        k: Color, b: Tree<Ptr>, y: Ptr, j: Color, d: Tree<Ptr>)
    requires At(m, root, o, c, Node(a, x, k, Node(b, y, j, d)))
    requires Rehung(m, m', root, root', c, y)
    requires x in m' && m'[x] == Links(y, k, RootPtr(a), RootPtr(b))
    requires y in m' && m'[y] == Links(CtxPtr(c), j, x, RootPtr(d))
    requires b.Node? ==> b.item in m && b.item in m' && m'[b.item] == m[b.item].(parent := x)
    requires Changed(m, m', {x, y} + PtrSet(RootPtr(b)) + PtrSet(CtxPtr(c)))
    ensures At(m', root', o, c, Node(Node(a, x, k, b), y, j, d))
  {
    hide Sep, SepCtx, Elems, CtxElems, Changed, PtrSet, Members, InOrder, Before, After;
    RotateShape(o, c, a, x, k, b, y, j, d);
    LeftHeld(m, root, c, a, x, k, b, y, j, d);
    LeftParts(c, a, x, k, b, y, j, d);
    var s := {x, y} + PtrSet(RootPtr(b)) + PtrSet(CtxPtr(c));
    ChangedSame(m, m', s, Elems(a));
    ChangedSame(m, m', s, Elems(d));
    ChangedSame(m, m', s, Elems(b) - {RootPtr(b)});
    ChangedSame(m, m', s, CtxElems(c) - {CtxPtr(c)});
    HoldsFrame(m, m', a, x);
    HoldsFrame(m, m', d, y);
    Reparented(m, m', b, y, x);
    RehungHolds(m, m', root, root', c, x, y);
    assert Holds(m', Node(a, x, k, b), y);
  }

  lemma RightHeld(m: Mem, root: Ptr, c: Ctx<Ptr>, a: Tree<Ptr>, x: Ptr, k: Color, b: Tree<Ptr>, y: Ptr, j: Color,
                  d: Tree<Ptr>)
    requires Linked(m, root, c, Node(Node(a, x, k, b), y, j, d))
    ensures Holds(m, a, x) && Holds(m, b, x) && Holds(m, d, y) && HoldsCtx(m, root, c, y)
    ensures x != NULL && y != NULL
  {
    assert Holds(m, Node(a, x, k, b), y);
  }

  lemma RightParts(c: Ctx<Ptr>, a: Tree<Ptr>, x: Ptr, k: Color, b: Tree<Ptr>, y: Ptr, j: Color, d: Tree<Ptr>)
    requires Sep(Node(Node(a, x, k, b), y, j, d)) && SepCtx(c) && Elems(Node(Node(a, x, k, b), y, j, d)) !! CtxElems(c)
    ensures Sep(b)
    ensures var s := {x, y} + PtrSet(RootPtr(b)) + PtrSet(CtxPtr(c));
            s !! Elems(a) && s !! Elems(d) && s !! (Elems(b) - {RootPtr(b)}) && s !! (CtxElems(c) - {CtxPtr(c)})
  {
    assert Sep(Node(a, x, k, b)) && Elems(Node(a, x, k, b)) == Elems(a) + {x} + Elems(b);
    SetsApart(Elems(a), Elems(b), Elems(d), CtxElems(c), x, y, RootPtr(b), CtxPtr(c));
  }

  lemma RotateRightLinks(m: Mem, m': Mem, root: Ptr, root': Ptr, o: seq<Ptr>, c: Ctx<Ptr>, a: Tree<Ptr>, x: Ptr,
                         k: Color, b: Tree<Ptr>, y: Ptr, j: Color, d: Tree<Ptr>)
    requires At(m, root, o, c, Node(Node(a, x, k, b), y, j, d))
    requires Rehung(m, m', root, root', c, x)
    requires y in m' && m'[y] == Links(x, j, RootPtr(b), RootPtr(d))
    requires x in m' && m'[x] == Links(CtxPtr(c), k, RootPtr(a), y)
    requires b.Node? ==> b.item in m && b.item in m' && m'[b.item] == m[b.item].(parent := y)
    requires Changed(m, m', {x, y} + PtrSet(RootPtr(b)) + PtrSet(CtxPtr(c)))
    ensures At(m', root', o, c, Node(a, x, k, Node(b, y, j, d)))
  {
    hide Sep, SepCtx, Elems, CtxElems, Changed, PtrSet, Members, InOrder, Before, After;
    RotateShape(o, c, a, x, k, b, y, j, d);
    RightHeld(m, root, c, a, x, k, b, y, j, d);
    RightParts(c, a, x, k, b, y, j, d);
    var s := {x, y} + PtrSet(RootPtr(b)) + PtrSet(CtxPtr(c));
    ChangedSame(m, m', s, Elems(a));
    ChangedSame(m, m', s, Elems(d));
    ChangedSame(m, m', s, Elems(b) - {RootPtr(b)});
    ChangedSame(m, m', s, CtxElems(c) - {CtxPtr(c)});
    HoldsFrame(m, m', a, x);
    HoldsFrame(m, m', d, y);
    Reparented(m, m', b, x, y);
    RehungHolds(m, m', root, root', c, y, x);
    assert Holds(m', Node(b, y, j, d), x);
  }

  lemma RecolorLinks(m: Mem, root: Ptr, o: seq<Ptr>, c: Ctx<Ptr>, l: Tree<Ptr>, x: Ptr, k: Color, r: Tree<Ptr>,
                     k': Color)
    requires At(m, root, o, c, Node(l, x, k, r))
    ensures At(m[x := m[x].(color := k')], root, o, c, Node(l, x, k', r))
  {
    var m' := m[x := m[x].(color := k')];
    HoldsFrame(m, m', l, x);
    HoldsFrame(m, m', r, x);
    CtxFrame(m, m', root, c, x);
  }

  /** The cells of all trees, and the roots that name the trees. */
  class Forest {
    var mem: Mem
    var roots: seq<Ptr>

    constructor (n: nat)
      ensures mem == map[] && |roots| == n && forall i :: 0 <= i < n ==> roots[i] == NULL
    {
      mem, roots := map[], seq(n, _ => NULL);
    }

    /** No other root changed, and no cell appeared or vanished. */
    twostate predicate Elsewhere(r: nat)
      reads this
    {
      && r < |old(roots)| == |roots| && (forall i :: 0 <= i < |roots| && i != r ==> roots[i] == old(roots)[i])
      && mem.Keys == old(mem).Keys
    }

    /** Nothing but root `r` and the cells in `o` changed. */
    twostate predicate Only(r: nat, o: seq<Ptr>)
      reads this
    {
      Elsewhere(r) && Changed(old(mem), mem, Members(o))
    }

    method SetColor(x: Ptr, k': Color, r: nat, ghost o: seq<Ptr>, ghost c: Ctx<Ptr>, ghost t: Tree<Ptr>)
      requires r < |roots| && t.Node? && t.item == x && At(mem, roots[r], o, c, t)
      modifies this
      ensures Only(r, o) && roots == old(roots)
      ensures At(mem, roots[r], o, c, t.(color := k'))
    {
      RecolorLinks(mem, roots[r], o, c, t.left, x, t.color, t.right, k');
      mem := mem[x := mem[x].(color := k')];
    }

    /** Painting a black root black changes nothing. */
    method PaintRoot(x: Ptr, r: nat, ghost o: seq<Ptr>, ghost t: Tree<Ptr>)
      requires r < |roots| && x == roots[r] && At(mem, roots[r], o, Top, t) && !IsRed(t)
      modifies this`mem
      ensures mem == old(mem)
    {
      if x != NULL {
        mem := mem[x := mem[x].(color := Black)];
      }
    }

    method SetParent(x: Ptr, p: Ptr)
      requires x != NULL ==> x in mem
      modifies this`mem
      ensures mem == if x == NULL then old(mem) else old(mem)[x := old(mem)[x].(parent := p)]
    {
      if x != NULL {
        mem := mem[x := mem[x].(parent := p)];
      }
    }

    /** Makes the parent of `node`, or the root, point to `other` instead. */
    method ReplaceChild(parent: Ptr, node: Ptr, other: Ptr, r: nat, ghost c: Ctx<Ptr>)
      requires r < |roots| && parent == CtxPtr(c) && (!c.Top? ==> parent != NULL && parent in mem)
      requires !c.Top? ==> (c.InLeft? <==> mem[parent].left == node)
      modifies this
      ensures Elsewhere(r) && Changed(old(mem), mem, PtrSet(parent))
      ensures Rehung(old(mem), mem, old(roots)[r], roots[r], c, other)
    {
      if parent != NULL {
        if mem[parent].left == node {
          mem := mem[parent := mem[parent].(left := other)];
        } else {
          mem := mem[parent := mem[parent].(right := other)];
        }
      } else {
        roots := roots[r := other];
      }
    }

    /** The pointer assignments of a left rotation. */
    method RotateLeftCells(node: Ptr, r: nat, ghost y: Ptr, ghost b: Tree<Ptr>, ghost c: Ctx<Ptr>)
      requires r < |roots| && node in mem && y in mem && mem[node].right == y && mem[node].parent == CtxPtr(c)
      requires mem[y].left == RootPtr(b) && Apart(mem, c, node, y, b) && Sided(mem, c, node)
      modifies this
      ensures Elsewhere(r)
      ensures Changed(old(mem), mem, {node, y} + PtrSet(RootPtr(b)) + PtrSet(CtxPtr(c)))
      ensures Rehung(old(mem), mem, old(roots)[r], roots[r], c, y)
      ensures mem[node] == old(mem)[node].(parent := y, right := RootPtr(b))
      ensures mem[y] == old(mem)[y].(parent := CtxPtr(c), left := node)
      ensures b.Node? ==> mem[b.item] == old(mem)[b.item].(parent := node)
    {
      hide Elems, CtxElems;
      var right := mem[node].right;
      var parent := mem[node].parent;
      mem := mem[node := mem[node].(right := mem[right].left)];
      SetParent(mem[node].right, node);
      mem := mem[right := mem[right].(left := node, parent := parent)];
      ReplaceChild(parent, node, right, r, c);
      mem := mem[node := mem[node].(parent := right)];
    }

    /** The pointer assignments of a right rotation. */
    method RotateRightCells(node: Ptr, r: nat, ghost x: Ptr, ghost b: Tree<Ptr>, ghost c: Ctx<Ptr>)
      requires r < |roots| && node in mem && x in mem && mem[node].left == x && mem[node].parent == CtxPtr(c)
      requires mem[x].right == RootPtr(b) && Apart(mem, c, x, node, b) && Sided(mem, c, node)
      modifies this
      ensures Elsewhere(r)
      ensures Changed(old(mem), mem, {x, node} + PtrSet(RootPtr(b)) + PtrSet(CtxPtr(c)))
      ensures Rehung(old(mem), mem, old(roots)[r], roots[r], c, x)
      ensures mem[node] == old(mem)[node].(parent := x, left := RootPtr(b))
      ensures mem[x] == old(mem)[x].(parent := CtxPtr(c), right := node)
      ensures b.Node? ==> mem[b.item] == old(mem)[b.item].(parent := node)
    {
      hide Elems, CtxElems;
      var left := mem[node].left;
      var parent := mem[node].parent;
      mem := mem[node := mem[node].(left := mem[left].right)];
      SetParent(mem[node].left, node);
      mem := mem[left := mem[left].(right := node, parent := parent)];
      ReplaceChild(parent, node, left, r, c);
      mem := mem[node := mem[node].(parent := left)];
    }

    method RotateLeft(node: Ptr, r: nat, ghost o: seq<Ptr>, ghost c: Ctx<Ptr>, ghost a: Tree<Ptr>, ghost k: Color,
                      ghost b: Tree<Ptr>, ghost y: Ptr, ghost j: Color, ghost d: Tree<Ptr>)
      requires r < |roots| && At(mem, roots[r], o, c, Node(a, node, k, Node(b, y, j, d)))
      modifies this
      ensures Only(r, o)
      ensures At(mem, roots[r], o, c, Node(Node(a, node, k, b), y, j, d))
    {
      LeftPivot(mem, roots[r], o, c, a, node, k, b, y, j, d);
      RotateLeftCells(node, r, y, b, c);
      RotateLeftLinks(old(mem), mem, old(roots)[r], roots[r], o, c, a, node, k, b, y, j, d);
    }

    method RotateRight(node: Ptr, r: nat, ghost o: seq<Ptr>, ghost c: Ctx<Ptr>, ghost a: Tree<Ptr>, ghost x: Ptr,
                       ghost k: Color, ghost b: Tree<Ptr>, ghost j: Color, ghost d: Tree<Ptr>)
      requires r < |roots| && At(mem, roots[r], o, c, Node(Node(a, x, k, b), node, j, d))
      modifies this
      ensures Only(r, o)
      ensures At(mem, roots[r], o, c, Node(a, x, k, Node(b, node, j, d)))
    {
      RightPivot(mem, roots[r], o, c, a, x, k, b, node, j, d);
      RotateRightCells(node, r, x, b, c);
      RotateRightLinks(old(mem), mem, old(roots)[r], roots[r], o, c, a, x, k, b, node, j, d);
    }
  }
}
