/** The index of BilbyFs: an array of red-black trees, chosen by inode number, that behaves as a map
    from object ids to addresses. */
module ObjIndex {
  import opened ObjectId
  import opened RbTree
  import opened RbHeap
  import opened RbInsert
  import opened RbErase
  import opened RbRemove
  import opened IndexShape

  /** The least member of a set of ids above `id` and in the same inode, or NIL. */
  ghost predicate IsNext(ids: set<ObjId>, id: ObjId, r: ObjId) {
    var ino := id / 0x1_0000_0000;
    if exists i :: i in ids && i > id && i / 0x1_0000_0000 == ino
    then r in ids && r > id && r / 0x1_0000_0000 == ino
         && forall i :: i in ids && i > id && i / 0x1_0000_0000 == ino ==> r <= i
    else r == 0xffff_ffff_ffff_ffff
  }

  lemma SeekFocus(m: Mem, root: Ptr, o: seq<Ptr>, objs: Objs, id: ObjId, c: Ctx<Ptr>, t: Tree<Ptr>)
    requires Seek(m, root, o, objs, id, c, t)
    ensures At(m, root, o, c, t) && o == Before(c) + InOrder(t) + After(c)
  {
  }

  /** Addresses take no part in the order. */
  lemma AddrWritten(m: Mem, roots: seq<Ptr>, objs: Objs, cells: map<ObjId, Ptr>, trees: seq<Tree<Ptr>>, x: Ptr,
                    addr: Addr)
    requires BucketsOk(m, roots, objs, cells, trees) && x in objs
    ensures BucketsOk(m, roots, objs[x := objs[x].(addr := addr)], cells, trees)
  {
    var objs' := objs[x := objs[x].(addr := addr)];
    forall h | 0 <= h < IDX_HASH_SIZE ensures BucketOk(m, roots[h], objs', cells, h, trees[h]) {
      TheBucket(m, roots, objs, cells, trees, h);
      BucketFrame(m, m, roots[h], objs, objs', cells, cells, h, trees[h], {});
    }
  }

  lemma EraseOrders(o: seq<Ptr>, c: Ctx<Ptr>, t: Tree<Ptr>)
    requires o == Before(c) + InOrder(t) + After(c) && t.Node?
    ensures o == (Before(c) + InOrder(t.left)) + [t.item] + (InOrder(t.right) + After(c))
    ensures Before(c) + InOrder(t.left) + InOrder(t.right) + After(c) ==
            (Before(c) + InOrder(t.left)) + (InOrder(t.right) + After(c))
  {
    Split5(Before(c), InOrder(t.left), [t.item], InOrder(t.right), After(c));
  }

  lemma Split5(a: seq<Ptr>, b: seq<Ptr>, x: seq<Ptr>, d: seq<Ptr>, e: seq<Ptr>)
    ensures a + (b + x + d) + e == (a + b) + x + (d + e) && a + b + d + e == (a + b) + (d + e)
  {
  }

  lemma OwnedHash(objs: Objs, cells: map<ObjId, Ptr>, h: nat, o: seq<Ptr>)
    requires Owned(objs, cells, h, o)
    ensures forall p :: p in Members(o) && p in objs ==> Hash(objs[p].id) == h
  {
  }

  lemma CellErased(m: Mem, m': Mem, roots: seq<Ptr>, roots': seq<Ptr>, objs: Objs, cells: map<ObjId, Ptr>,
                   trees: seq<Tree<Ptr>>, h: nat, t: Tree<Ptr>, a: seq<Ptr>, x: Ptr, z: seq<Ptr>, id: ObjId)
    requires BucketsOk(m, roots, objs, cells, trees) && Complete(objs, cells, trees) && h == Hash(id)
    requires InOrder(trees[h]) == a + [x] + z && id in cells && cells[id] == x
    requires |roots'| == |roots| && forall g :: 0 <= g < |roots| && g != h ==> roots'[g] == roots[g]
    requires Changed(m, m', Members(a + [x] + z))
    requires At(m', roots'[h], a + z, Top, t) && Valid(t)
    ensures BucketsOk(m', roots', objs, cells - {id}, trees[h := t])
    ensures Complete(objs, cells - {id}, trees[h := t])
  {
    hide At, Valid, Changed, Ascending, Owned, InOrder;
    TheBucket(m, roots, objs, cells, trees, h);
    ErasedBucket(m', roots'[h], objs, cells, h, t, a, x, z);
    OwnedHash(objs, cells, h, a + [x] + z);
    BucketsAfter(m, m', roots, roots', objs, objs, cells, cells - {id}, trees, h, t, Members(a + [x] + z));
    CompleteErased(objs, cells, trees, h, t, a, x, z, id);
  }

  lemma CompleteErased(objs: Objs, cells: map<ObjId, Ptr>, trees: seq<Tree<Ptr>>, h: nat, t: Tree<Ptr>, a: seq<Ptr>,
                       x: Ptr, z: seq<Ptr>, id: ObjId)
    requires Complete(objs, cells, trees) && h == Hash(id) && InOrder(trees[h]) == a + [x] + z && InOrder(t) == a + z
    requires id in cells && cells[id] == x
    ensures Complete(objs, cells - {id}, trees[h := t])
  {
    forall i | i in cells - {id} ensures cells[i] in InOrder(trees[h := t][Hash(i)]) {
      if Hash(i) == h {
        assert cells[i] in a + [x] + z && cells[i] != x;
      }
    }
  }

  /** An unsuccessful search ends at an empty slot between what is below and what is above. */
  lemma EmptySlot(m: Mem, root: Ptr, o: seq<Ptr>, objs: Objs, id: ObjId, c: Ctx<Ptr>)
    requires Seek(m, root, o, objs, id, c, Leaf)
    ensures o == Before(c) + After(c) && At(m, root, o, c, Leaf) && (!c.Top? ==> c.item != NULL && c.item in m)
    ensures Below(KeysOf(objs), Before(c), id) && Above(KeysOf(objs), After(c), id)
  {
    NoMiddle(Before(c), After(c));
  }

  lemma NoMiddle(a: seq<Ptr>, b: seq<Ptr>)
    ensures a + [] + b == a + b
  {
  }

  lemma CellAdded(m: Mem, m': Mem, roots: seq<Ptr>, roots': seq<Ptr>, objs: Objs, objs': Objs, cells: map<ObjId, Ptr>,
                  trees: seq<Tree<Ptr>>, h: nat, t: Tree<Ptr>, c: Ctx<Ptr>, x: Ptr, id: ObjId)
    requires BucketsOk(m, roots, objs, cells, trees) && Complete(objs, cells, trees) && h == Hash(id)
    requires InOrder(trees[h]) == Before(c) + After(c) && x !in objs && id !in cells
    requires Below(KeysOf(objs), Before(c), id) && Above(KeysOf(objs), After(c), id)
    requires |roots'| == |roots| && forall g :: 0 <= g < |roots| && g != h ==> roots'[g] == roots[g]
    requires Changed(m, m', Members(Before(c) + [x] + After(c)))
    requires At(m', roots'[h], Before(c) + [x] + After(c), Top, t) && Valid(t)
    requires objs' == objs[x := Entry(id, Addr(0, 0, 0, 0))]
    ensures BucketsOk(m', roots', objs', cells[id := x], trees[h := t])
    ensures Complete(objs', cells[id := x], trees[h := t])
  {
    hide At, Valid, Changed, Ascending, Owned, Below, Above, InOrder, Before, After;
    var a, z := Before(c), After(c);
    TheBucket(m, roots, objs, cells, trees, h);
    InsertedBucket(m', roots'[h], objs, objs', cells, h, t, a, x, z, id);
    OwnedCells(objs, cells, h, a, x, z);
    BucketsAfter(m, m', roots, roots', objs, objs', cells, cells[id := x], trees, h, t, Members(a + [x] + z));
    CompleteAfter(objs, objs', cells, cells[id := x], trees, h, t, id, x);
  }

  lemma IndexAdded(m: Mem, m': Mem, roots: seq<Ptr>, roots': seq<Ptr>, objs: Objs, objs': Objs, cells: map<ObjId, Ptr>,
                   trees: seq<Tree<Ptr>>, h: nat, t: Tree<Ptr>, c: Ctx<Ptr>, x: Ptr, id: ObjId)
    requires IndexOk(m, roots, objs, cells, trees, x) && h == Hash(id)
    requires InOrder(trees[h]) == Before(c) + After(c) && id !in cells
    requires Below(KeysOf(objs), Before(c), id) && Above(KeysOf(objs), After(c), id)
    requires |roots'| == |roots| && forall g :: 0 <= g < |roots| && g != h ==> roots'[g] == roots[g]
    requires Changed(m, m', Members(Before(c) + [x] + After(c))) && m'.Keys == m.Keys + {x}
    requires At(m', roots'[h], Before(c) + [x] + After(c), Top, t) && Valid(t)
    requires objs' == objs[x := Entry(id, Addr(0, 0, 0, 0))]
    ensures IndexOk(m', roots', objs', cells[id := x], trees[h := t], x + 1)
  {
    CellAdded(m, m', roots, roots', objs, objs', cells, trees, h, t, c, x, id);
  }

  lemma IndexErased(m: Mem, m': Mem, roots: seq<Ptr>, roots': seq<Ptr>, objs: Objs, cells: map<ObjId, Ptr>,
                    trees: seq<Tree<Ptr>>, h: nat, t: Tree<Ptr>, a: seq<Ptr>, x: Ptr, z: seq<Ptr>, id: ObjId, next: Ptr)
    requires IndexOk(m, roots, objs, cells, trees, next) && h == Hash(id)
    requires InOrder(trees[h]) == a + [x] + z && id in cells && cells[id] == x
    requires |roots'| == |roots| && forall g :: 0 <= g < |roots| && g != h ==> roots'[g] == roots[g]
    requires Changed(m, m', Members(a + [x] + z)) && m'.Keys == m.Keys
    requires At(m', roots'[h], a + z, Top, t) && Valid(t)
    ensures IndexOk(m', roots', objs, cells - {id}, trees[h := t], next)
  {
    CellErased(m, m', roots, roots', objs, cells, trees, h, t, a, x, z, id);
  }

  lemma OwnedCells(objs: Objs, cells: map<ObjId, Ptr>, h: nat, a: seq<Ptr>, x: Ptr, z: seq<Ptr>)
    requires Owned(objs, cells, h, a + z) && x !in objs
    ensures forall p :: p in Members(a + [x] + z) && p in objs ==> Hash(objs[p].id) == h
    ensures x in a + [x] + z && forall p :: p in a + z ==> p in a + [x] + z
  {
    forall p | p in a + [x] + z && p in objs ensures p in a + z {
    }
  }

  lemma CompleteAfter(objs: Objs, objs': Objs, cells: map<ObjId, Ptr>, cells': map<ObjId, Ptr>, trees: seq<Tree<Ptr>>,
                      h: nat, t: Tree<Ptr>, id: ObjId, x: Ptr)
    requires Complete(objs, cells, trees) && h == Hash(id) && x !in objs
    requires objs' == objs[x := Entry(id, Addr(0, 0, 0, 0))]
    requires cells' == cells[id := x] && x in InOrder(t) && forall p :: p in InOrder(trees[h]) ==> p in InOrder(t)
    ensures Complete(objs', cells', trees[h := t])
  {
  }

  lemma NextStart(m: Mem, root: Ptr, objs: Objs, cells: map<ObjId, Ptr>, b: nat, id: ObjId, t: Tree<Ptr>)
    requires BucketOk(m, root, objs, cells, b, t)
    ensures NextSeek(m, root, InOrder(t), objs, id, Top, t, NULL) && RootPtr(t) == root
  {
    HeadReads(m, t, NULL);
    HoldsNonNull(m, t, NULL);
    InOrderElems(t);
    if t.Node? {
      SearchSplit(InOrder(t), KeysOf(objs), Top, t);
    }
  }

  lemma NextLeft(m: Mem, root: Ptr, o: seq<Ptr>, objs: Objs, id: ObjId, c: Ctx<Ptr>, t: Tree<Ptr>, greater: Ptr)
    requires NextSeek(m, root, o, objs, id, c, t, greater) && t.Node? && id < objs[t.item].id
    ensures NextSeek(m, root, o, objs, id, InLeft(t.item, t.color, t.right, c), t.left, t.item)
    ensures m[t.item].left == RootPtr(t.left)
  {
    hide Sep, SepCtx, Elems, CtxElems, Members, Ascending;
    SearchSplit(o, KeysOf(objs), c, t);
    ZoomLeft(m, root, o, c, t.left, t.item, t.color, t.right);
    HeadReads(m, t.left, t.item);
    if t.left.Node? {
      SearchSplit(o, KeysOf(objs), InLeft(t.item, t.color, t.right, c), t.left);
    }
  }

  lemma NextRight(m: Mem, root: Ptr, o: seq<Ptr>, objs: Objs, id: ObjId, c: Ctx<Ptr>, t: Tree<Ptr>, greater: Ptr)
    requires NextSeek(m, root, o, objs, id, c, t, greater) && t.Node? && id >= objs[t.item].id
    ensures NextSeek(m, root, o, objs, id, InRight(t.left, t.item, t.color, c), t.right, greater)
    ensures m[t.item].right == RootPtr(t.right)
  {
    hide Sep, SepCtx, Elems, CtxElems, Members, Ascending;
    SearchSplit(o, KeysOf(objs), c, t);
    ZoomRight(m, root, o, c, t.left, t.item, t.color, t.right);
    HeadReads(m, t.right, t.item);
    if t.right.Node? {
      SearchSplit(o, KeysOf(objs), InRight(t.left, t.item, t.color, c), t.right);
    }
  }

  lemma FirstAfter(k: Keys, a: seq<Ptr>, z: seq<Ptr>, p: Ptr)
    requires Ascending(k, a + [] + z) && p in z
    ensures p in k && z[0] in k && k[z[0]] <= k[p]
  {
    var s := a + [] + z;
    var n :| 0 <= n < |z| && z[n] == p;
    assert s[|a|] == z[0] && s[|a| + n] == p;
  }

  /** At the end of the search, `greater` is the least cell of the bucket above `id`. */
  lemma NextDone(o: seq<Ptr>, objs: Objs, cells: map<ObjId, Ptr>, trees: seq<Tree<Ptr>>, id: ObjId, c: Ctx<Ptr>,
                 greater: Ptr)
    requires Complete(objs, cells, trees) && o == InOrder(trees[Hash(id)]) && Owned(objs, cells, Hash(id), o)
    requires o == Before(c) + [] + After(c) && Ascending(KeysOf(objs), o)
    requires Below(KeysOf(objs), Before(c), id + 1) && Above(KeysOf(objs), After(c), id)
    requires greater == (if After(c) == [] then NULL else After(c)[0]) && forall p :: p in o ==> p != NULL
    ensures greater != NULL ==> greater in objs && objs[greater].id in cells
    ensures IsNext(cells.Keys, id, if greater == NULL || Inum(id) != Inum(objs[greater].id) then NIL_ID
                   else objs[greater].id)
  {
    hide Ascending;
    if greater != NULL {
      assert greater in o;
    }
    forall i | i in cells.Keys && i > id && Inum(i) == Inum(id)
      ensures greater != NULL && objs[greater].id <= i
    {
      var p := cells[i];
      assert p in o && p !in Before(c);
      FirstAfter(KeysOf(objs), Before(c), After(c), p);
    }
  }

  class Index {
    const f: Forest
    /** The payload of each cell. */
    var objs: Objs
    /** Cells from here on have not been handed out yet. */
    var next: Ptr
    ghost var cells: map<ObjId, Ptr>
    ghost var trees: seq<Tree<Ptr>>

    ghost predicate Valid()
      reads this, f
    {
      IndexOk(f.mem, f.roots, objs, cells, trees, next)
    }

    ghost function Contents(): (m: map<ObjId, Addr>)
      requires Valid()
      reads this, f
    {
      ContentsOf(objs, cells)
    }

    lemma ContentsAt(id: ObjId)
      requires Valid() && id in cells
      ensures cells[id] in objs && id in Contents() && Contents()[id] == objs[cells[id]].addr
    {
    }

    constructor ()
      ensures Valid() && Contents() == map[] && fresh(f)
    {
      f := new Forest(IDX_HASH_SIZE);
      objs, next, cells, trees := map[], 1, map[], seq(IDX_HASH_SIZE, _ => Leaf);
      new;
      assert Balanced<Ptr>(Leaf, 0);
    }

    method Search(h: nat, id: ObjId) returns (node: Ptr, ghost c: Ctx<Ptr>, ghost t: Tree<Ptr>)
      requires Valid() && h == Hash(id)
      ensures Seek(f.mem, f.roots[h], InOrder(trees[h]), objs, id, c, t) && Plug(c, t) == trees[h]
      ensures node == RootPtr(t) && (node == NULL <==> id !in cells) && (id in cells ==> t.Node? && node == cells[id])
    {
      ghost var o := InOrder(trees[h]);
      node, c, t := f.roots[h], Top, trees[h];
      SeekStart(f.mem, f.roots[h], objs, cells, h, id, t);
      while node != NULL
        invariant Seek(f.mem, f.roots[h], o, objs, id, c, t) && node == RootPtr(t) && Plug(c, t) == trees[h]
        decreases t
      {
        var x := objs[node];
        if id < x.id {
          SeekLeft(f.mem, f.roots[h], o, objs, id, c, t);
          c, t := InLeft(t.item, t.color, t.right, c), t.left;
          node := f.mem[node].left;
        } else if id > x.id {
          SeekRight(f.mem, f.roots[h], o, objs, id, c, t);
          c, t := InRight(t.left, t.item, t.color, c), t.right;
          node := f.mem[node].right;
        } else {
          SeekHit(o, objs, cells, h, id, c, t);
          return;
        }
      }
      SeekMiss(o, objs, cells, trees, id, c);
    }

    method GetObjAddr(id: ObjId) returns (found: bool, addr: Addr)
      requires Valid()
      ensures found <==> id in Contents()
      ensures found ==> addr == Contents()[id]
    {
      var node;
      ghost var c, t;
      node, c, t := Search(Hash(id), id);
      found := node != NULL;
      addr := if found then objs[node].addr else Addr(0, 0, 0, 0);
    }

    /** Finds the next id without leaving the inode, although a bucket mixes inodes. */
    method NextObjId(id: ObjId) returns (r: ObjId)
      requires Valid()
      ensures IsNext(Contents().Keys, id, r)
    {
      hide Ascending, Below, Above, Sep, SepCtx, Elems, CtxElems, Members, KeysOf, IsNext, Owned, Complete;
      var h := Hash(id);
      var node := f.roots[h];
      var greater := NULL;
      ghost var o := InOrder(trees[h]);
      ghost var c, t := Top, trees[h];
      NextStart(f.mem, f.roots[h], objs, cells, h, id, t);
      while node != NULL
        invariant NextSeek(f.mem, f.roots[h], o, objs, id, c, t, greater) && node == RootPtr(t)
        decreases t
      {
        var x := objs[node];
        if id < x.id {
          NextLeft(f.mem, f.roots[h], o, objs, id, c, t, greater);
          greater := node;
          c, t := InLeft(t.item, t.color, t.right, c), t.left;
          node := f.mem[node].left;
        } else {
          NextRight(f.mem, f.roots[h], o, objs, id, c, t, greater);
          c, t := InRight(t.left, t.item, t.color, c), t.right;
          node := f.mem[node].right;
        }
      }
      NextDone(o, objs, cells, trees, id, c, greater);
      assert Contents().Keys == cells.Keys;
      if greater == NULL {
        return NIL_ID;
      }
      if Inum(id) != Inum(objs[greater].id) {
        return NIL_ID;
      }
      return objs[greater].id;
    }

    /** Where `id` is, or where it would have to be linked in. */
    method FindSlot(id: ObjId) returns (node: Ptr, parent: Ptr, left: bool, ghost c: Ctx<Ptr>)
      requires Valid()
      ensures node != NULL ==> id in cells && node == cells[id]
      ensures node == NULL ==> id !in cells && parent == CtxPtr(c) && (!c.Top? ==> (left <==> c.InLeft?))
      ensures node == NULL ==> Seek(f.mem, f.roots[Hash(id)], InOrder(trees[Hash(id)]), objs, id, c, Leaf)
      ensures node == NULL ==> Plug(c, Leaf) == trees[Hash(id)]
    {
      var h := Hash(id);
      ghost var o := InOrder(trees[h]);
      ghost var t := trees[h];
      c, node, parent, left := Top, f.roots[h], NULL, false;
      SeekStart(f.mem, f.roots[h], objs, cells, h, id, t);
      while node != NULL
        invariant Seek(f.mem, f.roots[h], o, objs, id, c, t) && node == RootPtr(t) && Plug(c, t) == trees[h]
        invariant parent == CtxPtr(c) && (!c.Top? ==> (left <==> c.InLeft?))
        decreases t
      {
        var x := objs[node];
        if id < x.id {
          SeekLeft(f.mem, f.roots[h], o, objs, id, c, t);
          c, t := InLeft(t.item, t.color, t.right, c), t.left;
          parent, node, left := node, f.mem[node].left, true;
        } else if id > x.id {
          SeekRight(f.mem, f.roots[h], o, objs, id, c, t);
          c, t := InRight(t.left, t.item, t.color, c), t.right;
          parent, node, left := node, f.mem[node].right, false;
        } else {
          SeekHit(o, objs, cells, h, id, c, t);
          return;
        }
      }
      SeekMiss(o, objs, cells, trees, id, c);
    }

    /** The cell of `id`; a new one, with a zero address, when there was none. */
    method InsertOrReplace(id: ObjId) returns (node: Ptr)
      requires Valid()
      modifies this, f
      ensures Valid() && id in cells && node == cells[id]
      ensures Contents() == if id in old(Contents()) then old(Contents()) else old(Contents())[id := Addr(0, 0, 0, 0)]
    {
      var parent, left;
      ghost var c;
      node, parent, left, c := FindSlot(id);
      if node == NULL {
        node := AddCell(id, parent, left, c);
      }
    }

    method LinkAndColor(node: Ptr, parent: Ptr, left: bool, h: nat, ghost c: Ctx<Ptr>) returns (ghost t: Tree<Ptr>)
      requires h < |f.roots| && At(f.mem, f.roots[h], Before(c) + After(c), c, Leaf) && RbTree.Valid(Plug(c, Leaf))
      requires node != NULL && node !in f.mem
      requires parent == CtxPtr(c) && (!c.Top? ==> parent != NULL && parent in f.mem && (left <==> c.InLeft?))
      modifies f
      ensures |f.roots| == |old(f.roots)| && forall i :: 0 <= i < |f.roots| && i != h ==> f.roots[i] == old(f.roots)[i]
      ensures f.mem.Keys == old(f.mem).Keys + {node}
      ensures Changed(old(f.mem), f.mem, Members(Before(c) + [node] + After(c)))
      ensures At(f.mem, f.roots[h], Before(c) + [node] + After(c), Top, t) && RbTree.Valid(t)
    {
      ghost var b := SubtreeFits(c, Leaf);
      ghost var o := Before(c) + [node] + After(c);
      LinkNode(f, node, parent, left, h, Before(c) + After(c), c);
      t := InsertColor(f, node, h, o, c, Node(Leaf, node, Red, Leaf), 0);
      assert PtrSet(parent) <= Members(o) by { CtxOrder(c); }
    }

    /** Takes a fresh cell, links it in and rebalances. */
    method AddCell(id: ObjId, parent: Ptr, left: bool, ghost c: Ctx<Ptr>) returns (node: Ptr)
      requires Valid() && id !in cells
      requires Seek(f.mem, f.roots[Hash(id)], InOrder(trees[Hash(id)]), objs, id, c, Leaf)
      requires Plug(c, Leaf) == trees[Hash(id)]
      requires parent == CtxPtr(c) && (!c.Top? ==> (left <==> c.InLeft?))
      modifies this, f
      ensures Valid() && id in cells && node == cells[id]
      ensures Contents() == old(Contents())[id := Addr(0, 0, 0, 0)]
    {
      hide BucketOk, Seek, At, RbTree.Valid, Changed, Below, Above, InOrder, Before, After, CtxElems, ContentsOf;
      var h := Hash(id);
      node := next;
      next := next + 1;
      EmptySlot(f.mem, f.roots[h], InOrder(trees[h]), objs, id, c);
      TheBucket(f.mem, f.roots, objs, cells, trees, h);
      ghost var t := LinkAndColor(node, parent, left, h, c);
      var objs' := objs[node := Entry(id, Addr(0, 0, 0, 0))];
      IndexAdded(old(f.mem), f.mem, old(f.roots), f.roots, objs, objs', cells, trees, h, t, c, node, id);
      ContentsAdded(objs, cells, id, node);
      ghost var trees' := trees[h := t];
      objs, cells, trees := objs', cells[id := node], trees';
    }

    /** Writes the address in a cell. */
    method SetAddr(node: Ptr, addr: Addr, ghost id: ObjId)
      requires Valid() && id in cells && cells[id] == node
      modifies this`objs
      ensures Valid() && Contents() == old(Contents())[id := addr] && cells == old(cells)
    {
      AddrWritten(f.mem, f.roots, objs, cells, trees, node, addr);
      objs := objs[node := objs[node].(addr := addr)];
    }

    method SetObjAddr(id: ObjId, addr: Addr)
      requires Valid()
      modifies this, f
      ensures Valid() && Contents() == old(Contents())[id := addr]
    {
      hide IndexOk, ContentsOf;
      var node := InsertOrReplace(id);
      SetAddr(node, addr, id);
    }

    method DelObjAddr(id: ObjId)
      requires Valid() && id in Contents()
      modifies this, f
      ensures Valid() && Contents() == old(Contents()) - {id}
    {
      hide BucketOk, Seek, At;
      var h := Hash(id);
      var node;
      ghost var c, t;
      node, c, t := Search(h, id);
      TheBucket(f.mem, f.roots, objs, cells, trees, h);
      SeekFocus(f.mem, f.roots[h], InOrder(trees[h]), objs, id, c, t);
      ghost var b := SubtreeFits(c, t);
      ghost var t' := Erase(f, node, h, InOrder(trees[h]), c, t, b);
      EraseOrders(InOrder(trees[h]), c, t);
      IndexErased(old(f.mem), f.mem, old(f.roots), f.roots, objs, cells, trees, h, t',
                  Before(c) + InOrder(t.left), node, InOrder(t.right) + After(c), id, next);
      ContentsErased(objs, cells, id);
      cells, trees := cells - {id}, trees[h := t'];
    }
  }
}
