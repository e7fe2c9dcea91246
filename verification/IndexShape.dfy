/** What the buckets of the index look like: red-black search trees over cells that carry ids. */
module IndexShape {
  import opened ObjectId
  import opened RbTree
  import opened RbHeap
  import opened RbErase
  import opened RbRemove

  const IDX_HASH_SIZE: nat := 2048

  function Hash(id: ObjId): (h: nat)
    ensures h < IDX_HASH_SIZE
  {
    Inum(id) % IDX_HASH_SIZE
  }

  datatype Entry = Entry(id: ObjId, addr: Addr)

  // ---- search order -------------------------------------------------------------------------------

  type Keys = map<Ptr, ObjId>

  ghost predicate Ascending(k: Keys, s: seq<Ptr>) {
    && (forall p :: p in s ==> p in k)
    && (forall i, j :: 0 <= i < j < |s| ==> k[s[i]] < k[s[j]])
  }

  ghost predicate Below(k: Keys, s: seq<Ptr>, id: int) {
    forall p :: p in s ==> p in k && k[p] < id
  }

  ghost predicate Above(k: Keys, s: seq<Ptr>, id: int) {
    forall p :: p in s ==> p in k && id < k[p]
  }

  lemma AscendingAround(k: Keys, a: seq<Ptr>, l: seq<Ptr>, x: Ptr, r: seq<Ptr>, b: seq<Ptr>)
    requires Ascending(k, a + (l + [x] + r) + b)
    ensures x in k && Below(k, l, k[x]) && Above(k, r, k[x])
  {
    var s := a + (l + [x] + r) + b;
    assert s[|a| + |l|] == x;
    forall p | p in l ensures p in k && k[p] < k[x] {
      var i :| 0 <= i < |l| && l[i] == p;
      assert s[|a| + i] == p;
    }
    forall p | p in r ensures p in k && k[x] < k[p] {
      var i :| 0 <= i < |r| && r[i] == p;
      assert s[|a| + |l| + 1 + i] == p;
    }
  }

  /** Where a search for `id` has got to: everything outside `t` is on the proper side. */
  ghost predicate Searching(m: Mem, root: Ptr, o: seq<Ptr>, k: Keys, id: ObjId, c: Ctx<Ptr>, t: Tree<Ptr>) {
    At(m, root, o, c, t) && Ascending(k, o) && Below(k, Before(c), id) && Above(k, After(c), id)
  }

  lemma SearchSplit(o: seq<Ptr>, k: Keys, c: Ctx<Ptr>, t: Tree<Ptr>)
    requires o == Before(c) + InOrder(t) + After(c) && Ascending(k, o) && t.Node?
    ensures t.item in k
    ensures Below(k, InOrder(t.left), k[t.item]) && Above(k, InOrder(t.right), k[t.item])
  {
    AscendingAround(k, Before(c), InOrder(t.left), t.item, InOrder(t.right), After(c));
  }

  lemma SearchLeft(m: Mem, root: Ptr, o: seq<Ptr>, k: Keys, id: ObjId, c: Ctx<Ptr>, t: Tree<Ptr>)
    requires Searching(m, root, o, k, id, c, t) && t.Node? && t.item in k && id < k[t.item]
    ensures Searching(m, root, o, k, id, InLeft(t.item, t.color, t.right, c), t.left)
  {
    SearchSplit(o, k, c, t);
    ZoomLeft(m, root, o, c, t.left, t.item, t.color, t.right);
  }

  lemma SearchRight(m: Mem, root: Ptr, o: seq<Ptr>, k: Keys, id: ObjId, c: Ctx<Ptr>, t: Tree<Ptr>)
    requires Searching(m, root, o, k, id, c, t) && t.Node? && t.item in k && k[t.item] < id
    ensures Searching(m, root, o, k, id, InRight(t.left, t.item, t.color, c), t.right)
  {
    SearchSplit(o, k, c, t);
    ZoomRight(m, root, o, c, t.left, t.item, t.color, t.right);
  }

  lemma SearchMissed(o: seq<Ptr>, k: Keys, id: ObjId, c: Ctx<Ptr>)
    requires o == Before(c) + [] + After(c) && Below(k, Before(c), id) && Above(k, After(c), id)
    ensures forall p :: p in o ==> p in k && k[p] != id
  {
  }

  lemma SearchHit(o: seq<Ptr>, k: Keys, c: Ctx<Ptr>, t: Tree<Ptr>)
    requires o == Before(c) + InOrder(t) + After(c) && t.Node?
    ensures t.item in o
  {
    assert t.item in InOrder(t);
  }

  /** Inserting between what is below and what is above keeps the order. */
  lemma AscendingInsert(k: Keys, a: seq<Ptr>, x: Ptr, b: seq<Ptr>)
    requires Ascending(k, a + b) && x in k && Below(k, a, k[x]) && Above(k, b, k[x])
    ensures Ascending(k, a + [x] + b)
  {
    var s, s' := a + b, a + [x] + b;
    forall i, j | 0 <= i < j < |s'| ensures s'[i] in k && s'[j] in k && k[s'[i]] < k[s'[j]] {
      var i0, j0 := if i < |a| then i else i - 1, if j < |a| then j else j - 1;
      assert i != |a| ==> s'[i] == s[i0] && s[i0] in s;
      assert j != |a| ==> s'[j] == s[j0] && s[j0] in s;
      if j == |a| { assert s'[i] == a[i]; }
      if i == |a| { assert s'[j] == b[j - |a| - 1]; }
    }
    forall p | p in s' ensures p in k {
      assert p in a || p == x || p in b;
    }
  }

  lemma AscendingDrop(k: Keys, a: seq<Ptr>, x: Ptr, b: seq<Ptr>)
    requires Ascending(k, a + [x] + b)
    ensures Ascending(k, a + b)
  {
    var s, s' := a + [x] + b, a + b;
    forall i, j | 0 <= i < j < |s'| ensures s'[i] in k && s'[j] in k && k[s'[i]] < k[s'[j]] {
      assert s'[i] == s[if i < |a| then i else i + 1];
      assert s'[j] == s[if j < |a| then j else j + 1];
    }
    forall p | p in s' ensures p in k {
      assert p in a || p in b;
    }
  }

  lemma AscendingDistinct(k: Keys, a: seq<Ptr>, x: Ptr, b: seq<Ptr>)
    requires Ascending(k, a + [x] + b)
    ensures x in k && forall p :: p in a + b ==> p in k && k[p] != k[x]
  {
    var s := a + [x] + b;
    assert s[|a|] == x;
    forall p | p in a + b ensures p in k && k[p] != k[x] {
      var i :| 0 <= i < |a + b| && (a + b)[i] == p;
      assert s[if i < |a| then i else i + 1] == p;
    }
  }

  // ---- the invariant ------------------------------------------------------------------------------

  type Objs = map<Ptr, Entry>

  function KeysOf(objs: Objs): Keys {
    map p | p in objs :: objs[p].id
  }

  /** Bucket `h` is the red-black search tree `t`, and holds only cells that `cells` knows of. */
  ghost predicate BucketOk(m: Mem, root: Ptr, objs: Objs, cells: map<ObjId, Ptr>, h: nat, t: Tree<Ptr>) {
    && At(m, root, InOrder(t), Top, t) && Valid(t)
    && Ascending(KeysOf(objs), InOrder(t))
    && Owned(objs, cells, h, InOrder(t))
  }

  ghost predicate Owned(objs: Objs, cells: map<ObjId, Ptr>, h: nat, o: seq<Ptr>) {
    forall p :: p in o ==> p in objs && Hash(objs[p].id) == h && objs[p].id in cells && cells[objs[p].id] == p
  }

  /** Every known id has its cell, and the cell is in the bucket of the id. */
  ghost predicate Complete(objs: Objs, cells: map<ObjId, Ptr>, trees: seq<Tree<Ptr>>) {
    && |trees| == IDX_HASH_SIZE
    && forall id :: id in cells ==>
         cells[id] in objs && objs[cells[id]].id == id && cells[id] in InOrder(trees[Hash(id)])
  }

  /** There are 2048 buckets, and the ids of an inode are in the one that its number says. */
  lemma BucketOf(objs: Objs, cells: map<ObjId, Ptr>, trees: seq<Tree<Ptr>>)
    requires Complete(objs, cells, trees)
    ensures |trees| == 2048
    ensures forall id :: id in cells ==> cells[id] in InOrder(trees[id / 0x1_0000_0000 % 2048])
  {
    hide InOrder;
    forall id | id in cells ensures Hash(id) == id / 0x1_0000_0000 % 2048 && cells[id] in InOrder(trees[Hash(id)]) {
    }
  }

  /** A bucket is not affected by changes to the cells of another one. */
  lemma SameKeys(objs: Objs, objs': Objs, cells: map<ObjId, Ptr>, cells': map<ObjId, Ptr>, h: nat, o: seq<Ptr>)
    requires Ascending(KeysOf(objs), o) && Owned(objs, cells, h, o)
    requires forall p :: p in o ==> p in objs' && objs'[p].id == objs[p].id
    requires forall id :: id in cells && Hash(id) == h ==> id in cells' && cells'[id] == cells[id]
    ensures Ascending(KeysOf(objs'), o) && Owned(objs', cells', h, o)
  {
  }

  lemma BucketFrame(m: Mem, m': Mem, root: Ptr, objs: Objs, objs': Objs, cells: map<ObjId, Ptr>,
                    cells': map<ObjId, Ptr>, h: nat, t: Tree<Ptr>, s: set<Ptr>)
    requires BucketOk(m, root, objs, cells, h, t) && Changed(m, m', s)
    requires forall p :: p in InOrder(t) ==> p !in s
    requires forall p :: p in InOrder(t) ==> p in objs' && objs'[p].id == objs[p].id
    requires forall id :: id in cells && Hash(id) == h ==> id in cells' && cells'[id] == cells[id]
    ensures BucketOk(m', root, objs', cells', h, t)
  {
    hide Ascending, Owned, Valid;
    InOrderElems(t);
    ChangedSame(m, m', s, Elems(t));
    HoldsFrame(m, m', t, NULL);
    SameKeys(objs, objs', cells, cells', h, InOrder(t));
  }

  ghost predicate BucketsOk(m: Mem, roots: seq<Ptr>, objs: Objs, cells: map<ObjId, Ptr>, trees: seq<Tree<Ptr>>) {
    && |roots| == |trees| == IDX_HASH_SIZE
    && forall h {:trigger BucketOk(m, roots[h], objs, cells, h, trees[h])} ::
         0 <= h < IDX_HASH_SIZE ==> BucketOk(m, roots[h], objs, cells, h, trees[h])
  }

  lemma TheBucket(m: Mem, roots: seq<Ptr>, objs: Objs, cells: map<ObjId, Ptr>, trees: seq<Tree<Ptr>>, h: nat)
    requires BucketsOk(m, roots, objs, cells, trees) && h < IDX_HASH_SIZE
    ensures BucketOk(m, roots[h], objs, cells, h, trees[h])
  {
  }

  /** Replacing the tree of one bucket keeps all buckets in order. */
  lemma BucketsAfter(m: Mem, m': Mem, roots: seq<Ptr>, roots': seq<Ptr>, objs: Objs, objs': Objs,
                     cells: map<ObjId, Ptr>, cells': map<ObjId, Ptr>, trees: seq<Tree<Ptr>>, b: nat, t: Tree<Ptr>,
                     s: set<Ptr>)
    requires BucketsOk(m, roots, objs, cells, trees) && b < IDX_HASH_SIZE
    requires |roots'| == |roots| && forall g :: 0 <= g < |roots| && g != b ==> roots'[g] == roots[g]
    requires Changed(m, m', s) && forall p :: p in s && p in objs ==> Hash(objs[p].id) == b
    requires forall p :: p in objs ==> p in objs' && objs'[p].id == objs[p].id
    requires forall id :: id in cells && Hash(id) != b ==> id in cells' && cells'[id] == cells[id]
    requires BucketOk(m', roots'[b], objs', cells', b, t)
    ensures BucketsOk(m', roots', objs', cells', trees[b := t])
  {
    forall g | 0 <= g < IDX_HASH_SIZE ensures BucketOk(m', roots'[g], objs', cells', g, trees[b := t][g]) {
      if g != b {
        BucketFrame(m, m', roots[g], objs, objs', cells, cells', g, trees[g], s);
      }
    }
  }

  /** The bucket after a new cell was put between what is below and what is above its id. */
  lemma InsertedBucket(m: Mem, root: Ptr, objs: Objs, objs': Objs, cells: map<ObjId, Ptr>, b: nat, t: Tree<Ptr>,
                       a: seq<Ptr>, x: Ptr, z: seq<Ptr>, id: ObjId)
    requires At(m, root, a + [x] + z, Top, t) && Valid(t)
    requires Ascending(KeysOf(objs), a + z) && Owned(objs, cells, b, a + z) && x !in objs && id !in cells
    requires objs' == objs[x := Entry(id, Addr(0, 0, 0, 0))] && Hash(id) == b
    requires Below(KeysOf(objs), a, id) && Above(KeysOf(objs), z, id)
    ensures InOrder(t) == a + [x] + z && BucketOk(m, root, objs', cells[id := x], b, t)
  {
    hide Linked, Valid, Ascending, Owned, Below, Above;
    InsertedKeys(objs, objs', cells, b, a, x, z, id);
    TopOrder(a + [x] + z, t);
  }

  lemma InsertedKeys(objs: Objs, objs': Objs, cells: map<ObjId, Ptr>, b: nat, a: seq<Ptr>, x: Ptr, z: seq<Ptr>,
                     id: ObjId)
    requires Ascending(KeysOf(objs), a + z) && Owned(objs, cells, b, a + z) && x !in objs && id !in cells
    requires objs' == objs[x := Entry(id, Addr(0, 0, 0, 0))] && Hash(id) == b
    requires Below(KeysOf(objs), a, id) && Above(KeysOf(objs), z, id)
    ensures Ascending(KeysOf(objs'), a + [x] + z) && Owned(objs', cells[id := x], b, a + [x] + z)
  {
    assert forall p :: p in a ==> p in a + z;
    assert forall p :: p in z ==> p in a + z;
    AscendingInsert(KeysOf(objs'), a, x, z);
  }

  lemma TopOrder(o: seq<Ptr>, t: Tree<Ptr>)
    requires Before<Ptr>(Top) + InOrder(t) + After<Ptr>(Top) == o
    ensures InOrder(t) == o
  {
  }

  /** The bucket after the cell `x` was taken out. */
  lemma ErasedBucket(m: Mem, root: Ptr, objs: Objs, cells: map<ObjId, Ptr>, b: nat, t: Tree<Ptr>, a: seq<Ptr>, x: Ptr,
                     z: seq<Ptr>)
    requires At(m, root, a + z, Top, t) && Valid(t)
    requires Ascending(KeysOf(objs), a + [x] + z) && Owned(objs, cells, b, a + [x] + z)
    ensures x in objs && InOrder(t) == a + z && BucketOk(m, root, objs, cells - {objs[x].id}, b, t)
  {
    AscendingDrop(KeysOf(objs), a, x, z);
    AscendingDistinct(KeysOf(objs), a, x, z);
    TopOrder(a + z, t);
    OwnedDrop(objs, cells, b, a, x, z);
  }

  lemma OwnedDrop(objs: Objs, cells: map<ObjId, Ptr>, b: nat, a: seq<Ptr>, x: Ptr, z: seq<Ptr>)
    requires Owned(objs, cells, b, a + [x] + z) && x in objs
    requires forall p :: p in a + z ==> p in objs && objs[p].id != objs[x].id
    ensures Owned(objs, cells - {objs[x].id}, b, a + z)
  {
    forall p | p in a + z ensures p in a + [x] + z {
    }
  }

  /** The position of a search in a bucket, and what the cells say there. */
  ghost predicate Seek(m: Mem, root: Ptr, o: seq<Ptr>, objs: Objs, id: ObjId, c: Ctx<Ptr>, t: Tree<Ptr>) {
    && Searching(m, root, o, KeysOf(objs), id, c, t) && Reads(m, t)
    && (t.Node? ==> t.item in objs) && (!c.Top? ==> c.item != NULL && c.item in m)
  }

  lemma SeekStart(m: Mem, root: Ptr, objs: Objs, cells: map<ObjId, Ptr>, b: nat, id: ObjId, t: Tree<Ptr>)
    requires BucketOk(m, root, objs, cells, b, t)
    ensures Seek(m, root, InOrder(t), objs, id, Top, t) && RootPtr(t) == root
  {
    SeekRead(m, root, InOrder(t), objs, id, Top, t);
  }

  lemma SeekLeft(m: Mem, root: Ptr, o: seq<Ptr>, objs: Objs, id: ObjId, c: Ctx<Ptr>, t: Tree<Ptr>)
    requires Seek(m, root, o, objs, id, c, t) && t.Node? && id < objs[t.item].id
    ensures Seek(m, root, o, objs, id, InLeft(t.item, t.color, t.right, c), t.left)
    ensures m[t.item].left == RootPtr(t.left)
  {
    SearchLeft(m, root, o, KeysOf(objs), id, c, t);
    SeekRead(m, root, o, objs, id, InLeft(t.item, t.color, t.right, c), t.left);
  }

  lemma SeekRight(m: Mem, root: Ptr, o: seq<Ptr>, objs: Objs, id: ObjId, c: Ctx<Ptr>, t: Tree<Ptr>)
    requires Seek(m, root, o, objs, id, c, t) && t.Node? && id > objs[t.item].id
    ensures Seek(m, root, o, objs, id, InRight(t.left, t.item, t.color, c), t.right)
    ensures m[t.item].right == RootPtr(t.right)
  {
    SearchRight(m, root, o, KeysOf(objs), id, c, t);
    SeekRead(m, root, o, objs, id, InRight(t.left, t.item, t.color, c), t.right);
  }

  /** Every subtree of a valid tree fits its context. */
  lemma {:induction false} SubtreeFits(c: Ctx<Ptr>, t: Tree<Ptr>) returns (h: nat)
    requires Valid(Plug(c, t))
    ensures Fits(c, t, h)
    decreases c
  {
    if c.Top? {
      h :| Balanced(t, h);
    } else {
      h := SubtreeFits(c.up, Wrap(c, t));
      FitsDown(c.up, Wrap(c, t), h);
      h := h - Rise(c.color);
    }
  }

  lemma SeekRead(m: Mem, root: Ptr, o: seq<Ptr>, objs: Objs, id: ObjId, c: Ctx<Ptr>, t: Tree<Ptr>)
    requires Searching(m, root, o, KeysOf(objs), id, c, t)
    ensures Reads(m, t) && (t.Node? ==> t.item in objs) && (!c.Top? ==> c.item != NULL && c.item in m)
  {
    HeadReads(m, t, CtxPtr(c));
    if t.Node? {
      SearchSplit(o, KeysOf(objs), c, t);
    }
  }

  lemma SeekHit(o: seq<Ptr>, objs: Objs, cells: map<ObjId, Ptr>, h: nat, id: ObjId, c: Ctx<Ptr>, t: Tree<Ptr>)
    requires o == Before(c) + InOrder(t) + After(c) && t.Node? && t.item in objs && objs[t.item].id == id
    requires Owned(objs, cells, h, o)
    ensures id in cells && cells[id] == t.item
  {
    SearchHit(o, KeysOf(objs), c, t);
  }

  lemma SeekMiss(o: seq<Ptr>, objs: Objs, cells: map<ObjId, Ptr>, trees: seq<Tree<Ptr>>, id: ObjId, c: Ctx<Ptr>)
    requires Complete(objs, cells, trees) && o == InOrder(trees[Hash(id)])
    requires o == Before(c) + [] + After(c) && Below(KeysOf(objs), Before(c), id) && Above(KeysOf(objs), After(c), id)
    ensures id !in cells
  {
    SearchMissed(o, KeysOf(objs), id, c);
  }

  /** The search for the next id: `greater` is the first cell after the focus. */
  ghost predicate NextSeek(m: Mem, root: Ptr, o: seq<Ptr>, objs: Objs, id: ObjId, c: Ctx<Ptr>, t: Tree<Ptr>,
                           greater: Ptr) {
    && At(m, root, o, c, t) && Ascending(KeysOf(objs), o) && Reads(m, t)
    && Below(KeysOf(objs), Before(c), id + 1) && Above(KeysOf(objs), After(c), id)
    && (t.Node? ==> t.item in objs)
    && greater == (if After(c) == [] then NULL else After(c)[0])
    && (forall p :: p in o ==> p != NULL)
  }

  /** The invariant of the whole index. */
  ghost predicate IndexOk(m: Mem, roots: seq<Ptr>, objs: Objs, cells: map<ObjId, Ptr>, trees: seq<Tree<Ptr>>,
                          next: Ptr) {
    && BucketsOk(m, roots, objs, cells, trees) && Complete(objs, cells, trees)
    && next > 0 && (forall p :: p in m ==> p < next) && (forall p :: p in objs ==> p < next)
  }

  /** The map that the index stands for. */
  ghost function ContentsOf(objs: Objs, cells: map<ObjId, Ptr>): map<ObjId, Addr>
    requires forall id :: id in cells ==> cells[id] in objs
  {
    map id | id in cells :: objs[cells[id]].addr
  }

  lemma ContentsAdded(objs: Objs, cells: map<ObjId, Ptr>, id: ObjId, x: Ptr)
    requires (forall i :: i in cells ==> cells[i] in objs) && x !in objs
    ensures ContentsOf(objs[x := Entry(id, Addr(0, 0, 0, 0))], cells[id := x]) ==
            ContentsOf(objs, cells)[id := Addr(0, 0, 0, 0)]
  {
  }

  lemma ContentsErased(objs: Objs, cells: map<ObjId, Ptr>, id: ObjId)
    requires forall i :: i in cells ==> cells[i] in objs
    ensures ContentsOf(objs, cells - {id}) == ContentsOf(objs, cells) - {id}
  {
  }
}
