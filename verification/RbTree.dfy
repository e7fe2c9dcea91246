/** Red-black trees as values: the shape that the linked cells of `RbHeap` must have at every step,
    one-hole contexts (the path from the root to the cell a loop is working on), and the balance
    invariants. `N` is the type of the linked cells. */
module RbTree {

  datatype Color = Red | Black

  datatype Tree<N> = Leaf | Node(left: Tree<N>, item: N, color: Color, right: Tree<N>)

  /** The rest of the tree around a hole, innermost frame first. */
  datatype Ctx<N> =
    | Top
    | InLeft(item: N, color: Color, right: Tree<N>, up: Ctx<N>)
    | InRight(left: Tree<N>, item: N, color: Color, up: Ctx<N>)

  predicate IsRed<N>(t: Tree<N>) {
    t.Node? && t.color.Red?
  }

  function Blacken<N>(t: Tree<N>): Tree<N> {
    if t.Leaf? then t else t.(color := Black)
  }

  ghost function Elems<N>(t: Tree<N>): set<N> {
    match t
    case Leaf => {}
    case Node(l, x, _, r) => Elems(l) + {x} + Elems(r)
  }

  ghost function CtxElems<N>(c: Ctx<N>): set<N> {
    match c
    case Top => {}
    case InLeft(x, _, r, up) => {x} + Elems(r) + CtxElems(up)
    case InRight(l, x, _, up) => {x} + Elems(l) + CtxElems(up)
  }

  function InOrder<N>(t: Tree<N>): seq<N> {
    match t
    case Leaf => []
    case Node(l, x, _, r) => InOrder(l) + [x] + InOrder(r)
  }

  /** The items that precede, and that follow, whatever fills the hole. */
  function Before<N>(c: Ctx<N>): seq<N> {
    match c
    case Top => []
    case InLeft(_, _, _, up) => Before(up)
    case InRight(l, x, _, up) => Before(up) + InOrder(l) + [x]
  }

  function After<N>(c: Ctx<N>): seq<N> {
    match c
    case Top => []
    case InLeft(x, _, r, up) => [x] + InOrder(r) + After(up)
    case InRight(_, _, _, up) => After(up)
  }

  function Plug<N>(c: Ctx<N>, t: Tree<N>): Tree<N> {
    match c
    case Top => t
    case InLeft(x, k, r, up) => Plug(up, Node(t, x, k, r))
    case InRight(l, x, k, up) => Plug(up, Node(l, x, k, t))
  }

  /** One frame of the context, filled. */
  function Wrap<N>(c: Ctx<N>, t: Tree<N>): Tree<N>
    requires !c.Top?
  {
    if c.InLeft? then Node(t, c.item, c.color, c.right) else Node(c.left, c.item, c.color, t)
  }

  /** The subtree beside the hole. */
  function Sibling<N>(c: Ctx<N>): Tree<N>
    requires !c.Top?
  {
    if c.InLeft? then c.right else c.left
  }

  function WithSibling<N>(c: Ctx<N>, s: Tree<N>): Ctx<N>
    requires !c.Top?
  {
    if c.InLeft? then c.(right := s) else c.(left := s)
  }

  /** The context of the subtree beside the hole, when `t` fills the hole. */
  function Flip<N>(c: Ctx<N>, t: Tree<N>): Ctx<N>
    requires !c.Top?
  {
    if c.InLeft? then InRight(t, c.item, c.color, c.up) else InLeft(c.item, c.color, t, c.up)
  }

  /** `inner` placed inside `outer`. */
  function Append<N>(inner: Ctx<N>, outer: Ctx<N>): Ctx<N> {
    match inner
    case Top => outer
    case InLeft(x, k, r, up) => InLeft(x, k, r, Append(up, outer))
    case InRight(l, x, k, up) => InRight(l, x, k, Append(up, outer))
  }

  predicate CtxRed<N>(c: Ctx<N>) {
    !c.Top? && c.color.Red?
  }

  /** No red item has a red child, and every path from the root down meets `h` black items. */
  predicate Balanced<N>(t: Tree<N>, h: nat) {
    match t
    case Leaf => h == 0
    case Node(l, _, Red, r) => !IsRed(l) && !IsRed(r) && Balanced(l, h) && Balanced(r, h)
    case Node(l, _, Black, r) => h > 0 && Balanced(l, h - 1) && Balanced(r, h - 1)
  }

  function Rise(k: Color): nat {
    if k.Black? then 1 else 0
  }

  /** The context is balanced for a hole of black height `h`, its own edges have no red-red pair,
      and its root is black. Nothing is said about the edge from the hole upwards. */
  predicate BalancedCtx<N>(c: Ctx<N>, h: nat) {
    match c
    case Top => true
    case InLeft(_, k, r, up) => FrameOk(k, r, up, h) && BalancedCtx(up, h + Rise(k))
    case InRight(l, _, k, up) => FrameOk(k, l, up, h) && BalancedCtx(up, h + Rise(k))
  }

  predicate FrameOk<N>(k: Color, sibling: Tree<N>, up: Ctx<N>, h: nat) {
    Balanced(sibling, h) && (k.Red? ==> !IsRed(sibling) && !CtxRed(up) && !up.Top?)
  }

  /** A red-black tree as the index keeps it. */
  ghost predicate Valid<N>(t: Tree<N>) {
    !IsRed(t) && exists h: nat :: Balanced(t, h)
  }

  // ---- plugging ---------------------------------------------------------------------------------

  lemma {:induction false} PlugInOrder<N>(c: Ctx<N>, t: Tree<N>)
    ensures InOrder(Plug(c, t)) == Before(c) + InOrder(t) + After(c)
    decreases c
  {
    match c
    case Top =>
    case InLeft(x, k, r, up) =>
      PlugInOrder(up, Node(t, x, k, r));
      Reassociate(Before(up), InOrder(t), [x], InOrder(r), After(up));
    case InRight(l, x, k, up) =>
      PlugInOrder(up, Node(l, x, k, t));
      Reassociate(Before(up), InOrder(l), [x], InOrder(t), After(up));
  }

  lemma Reassociate<N>(a: seq<N>, b: seq<N>, c: seq<N>, d: seq<N>, e: seq<N>)
    ensures a + (b + c + d) + e == a + b + (c + d + e) == (a + b + c) + d + e
  {
  }

  lemma {:induction false} PlugValid<N>(c: Ctx<N>, t: Tree<N>, h: nat)
    requires Balanced(t, h) && BalancedCtx(c, h)
    requires IsRed(t) ==> !c.Top? && !CtxRed(c)
    ensures Valid(Plug(c, t))
    decreases c
  {
    match c
    case Top => assert Balanced(t, h);
    case InLeft(x, k, r, up) => PlugValid(up, Node(t, x, k, r), h + Rise(k));
    case InRight(l, x, k, up) => PlugValid(up, Node(l, x, k, t), h + Rise(k));
  }

  lemma {:induction false} AppendElems<N>(inner: Ctx<N>, outer: Ctx<N>)
    ensures CtxElems(Append(inner, outer)) == CtxElems(inner) + CtxElems(outer)
  {
    if !inner.Top? { AppendElems(inner.up, outer); }
  }

  lemma {:induction false} InOrderElems<N>(t: Tree<N>)
    ensures forall x :: x in Elems(t) <==> x in InOrder(t)
  {
    match t
    case Leaf =>
    case Node(l, x, _, r) => InOrderElems(l); InOrderElems(r);
  }

  // ---- height -----------------------------------------------------------------------------------

  function Height<N>(t: Tree<N>): nat {
    match t
    case Leaf => 0
    case Node(l, _, _, r) => 1 + if Height(l) < Height(r) then Height(r) else Height(l)
  }

  function Pow2(n: nat): nat {
    if n == 0 then 1 else 2 * Pow2(n - 1)
  }

  lemma {:induction false} BlackHeightBounds<N>(t: Tree<N>, h: nat)
    requires Balanced(t, h)
    ensures Pow2(h) <= |InOrder(t)| + 1
    ensures Height(t) <= 2 * h + if IsRed(t) then 1 else 0
    decreases t
  {
    match t
    case Leaf =>
    case Node(l, _, k, r) => BlackHeightBounds(l, h - Rise(k)); BlackHeightBounds(r, h - Rise(k));
  }

  lemma {:induction false} Pow2Add(a: nat, b: nat)
    ensures Pow2(a + b) == Pow2(a) * Pow2(b)
  {
    if a > 0 {
      Pow2Add(a - 1, b);
      assert a + b - 1 == a - 1 + b;
    }
  }

  lemma {:induction false} Pow2Monotone(a: nat, b: nat)
    requires a <= b
    ensures Pow2(a) <= Pow2(b)
    decreases b - a
  {
    if a < b { Pow2Monotone(a + 1, b); }
  }

  lemma SquareMonotone(a: nat, b: nat)
    requires a <= b
    ensures a * a <= b * b
  {
    assert a * a <= a * b <= b * b;
  }

  /** A tree of n items is at least log2(n + 1) high. */
  lemma {:induction false} LeastHeight<N>(t: Tree<N>)
    ensures |InOrder(t)| + 1 <= Pow2(Height(t))
    decreases t
  {
    if t.Node? {
      var h := Height(t) - 1;
      LeastHeight(t.left);
      LeastHeight(t.right);
      Pow2Monotone(Height(t.left), h);
      Pow2Monotone(Height(t.right), h);
    }
  }

  /** A valid tree of n items is at most 2 log2(n + 1) high. */
  lemma HeightBound<N>(t: Tree<N>)
    requires Valid(t)
    ensures Pow2(Height(t)) <= (|InOrder(t)| + 1) * (|InOrder(t)| + 1)
  {
    var h: nat :| Balanced(t, h);
    BlackHeightBounds(t, h);
    Pow2Monotone(Height(t), h + h);
    Pow2Add(h, h);
    SquareMonotone(Pow2(h), |InOrder(t)| + 1);
  }
}
