/** Processing records against the index of red-black trees. */
module ProcObj {
  import opened ObjectId
  import opened LogIndex
  import opened IndexShape
  import opened ObjIndex
  import opened LogSummary

  /** What the index holds at any time: proper ids, and the sequence numbers of real objects. */
  ghost predicate Sound(m: Idx) {
    forall id :: id in m ==> IndexedType(id) && m[id].sqnum > 0
  }

  /** The index with every covered id below `lim` removed. */
  ghost function Swept(m: Idx, d: ObjId, sq: nat, lim: int): Idx {
    map i | i in m && !(Covers(d, i) && i < lim && m[i].sqnum < sq) :: m[i]
  }

  lemma SweptAll(m: Idx, d: ObjId, a: Addr)
    ensures Swept(m, d, a.sqnum, TWO64) == Apply(m, Del(d, a))
  {
  }

  lemma SweptNone(m: Idx, d: ObjId, sq: nat)
    requires TypeField(d) != DENTARR_TYPE
    ensures Swept(m, d, sq, d) == m
  {
  }

  /** Removing `curr` and moving on to the next id sweeps everything below that id. */
  lemma SweptStep(m: Idx, m': Idx, d: ObjId, sq: nat, curr: ObjId, next: ObjId, lim: int)
    requires TypeField(d) != DENTARR_TYPE && Covers(d, curr) && NIL_ID !in m
    requires m' == (if curr in m && m[curr].sqnum < sq then Swept(m, d, sq, curr) - {curr} else Swept(m, d, sq, curr))
    requires IsNext(m'.Keys, curr, next)
    requires lim == if next == NIL_ID then TWO64 else next
    ensures m' == Swept(m, d, sq, lim)
    ensures next != NIL_ID ==> Covers(d, next) && next > curr
  {
    forall i | i in m && Covers(d, i) && i > curr ensures i >= lim {
      assert i in m'.Keys;
    }
  }

  /** Removes the objects a range deletion covers, one id after the other. */
  method Sweep(ix: Index, d: ObjId, a: Addr)
    requires ix.Valid() && Sound(ix.Contents()) && TypeField(d) != DENTARR_TYPE && d != NIL_ID
    modifies ix, ix.f
    ensures ix.Valid() && ix.Contents() == Apply(old(ix.Contents()), Del(d, a))
  {
    ghost var m := ix.Contents();
    var curr: ObjId := d;
    ghost var lim: int := d;
    NilIsNotIndexed();
    SweptNone(m, d, a.sqnum);
    while curr != NIL_ID
      invariant ix.Valid() && ix.Contents() == Swept(m, d, a.sqnum, lim)
      invariant lim == (if curr == NIL_ID then TWO64 else curr) && (curr != NIL_ID ==> Covers(d, curr))
      decreases TWO64 - lim
    {
      var found, addr := ix.GetObjAddr(curr);
      if found && addr.sqnum < a.sqnum {
        ix.DelObjAddr(curr);
      }
      var next := ix.NextObjId(curr);
      ghost var lim' := if next == NIL_ID then TWO64 else next;
      SweptStep(m, ix.Contents(), d, a.sqnum, curr, next, lim');
      curr, lim := next, lim';
    }
    SweptAll(m, d, a);
  }

  /** Indexes an object unless a newer one is indexed; a zero sequence number marks a new node. */
  method PutObj(ix: Index, id: ObjId, a: Addr)
    requires ix.Valid() && Sound(ix.Contents())
    modifies ix, ix.f
    ensures ix.Valid() && ix.Contents() == Apply(old(ix.Contents()), Obj(id, a))
  {
    hide IndexOk, ContentsOf;
    var node := ix.InsertOrReplace(id);
    ix.ContentsAt(id);
    var curr := ix.objs[node].addr;
    if curr.sqnum == 0 || curr.sqnum < a.sqnum {
      ix.SetAddr(node, a, id);
    }
  }

  /** Removes the one object that a deletion of a directory entry array covers. */
  method DropOne(ix: Index, d: ObjId, a: Addr)
    requires ix.Valid() && TypeField(d) == DENTARR_TYPE
    modifies ix, ix.f
    ensures ix.Valid() && ix.Contents() == Apply(old(ix.Contents()), Del(d, a))
  {
    var found, addr := ix.GetObjAddr(d);
    assert forall i: ObjId :: Covers(d, i) <==> i == d;
    if found && addr.sqnum < a.sqnum {
      ix.DelObjAddr(d);
    }
  }

  lemma SoundAfter(m: Idx, r: Rec)
    requires Sound(m) && IndexedType(r.id) && r.addr.sqnum > 0
    ensures Sound(Apply(m, r))
  {
  }

  /** The index without the ids from `lo` to below `hi` that are older than `sq`. */
  ghost function Without(m: Idx, lo: int, hi: int, sq: nat): Idx {
    map i | i in m && !(lo <= i < hi && m[i].sqnum < sq) :: m[i]
  }

  /** The range that a deletion covers, told from how its id is made. */
  lemma DeletedRange(m: Idx, d: ObjId, a: Addr, ino: nat, ty: nat, rest: nat)
    requires ino < 0x1_0000_0000 && ty < 3 && rest < 0x2000_0000
    requires d == ino * 0x1_0000_0000 + ty * 0x2000_0000 + rest
    ensures Apply(m, Del(d, a)) == Without(m, d, if ty == 2 then d + 1 else (ino + 1) * 0x1_0000_0000, a.sqnum)
  {
    FieldsOf(ino, ty, rest);
    hide TypeField, Inum;
    forall i: ObjId ensures Covers(d, i) <==> d <= i < if ty == 2 then d + 1 else (ino + 1) * 0x1_0000_0000 {
      SameInode(ino, i);
    }
  }

  /** `m'` is `m` after the record: an object is indexed unless the indexed one is at least as new, and a deletion
      removes the older ids in its range. */
  ghost predicate Processed(m: Idx, r: Rec, m': Idx) {
    var sq := r.addr.sqnum;
    && (r.Obj? ==> m' == if r.id in m && m[r.id].sqnum >= sq then m else m[r.id := r.addr])
    && (forall i :: 0 <= i < 0x1_0000_0000 && r.Del? && r.id == InodeId(i) ==>
          m' == Without(m, InodeId(i), (i + 1) * 0x1_0000_0000, sq))
    && (forall i, b :: 0 <= i < 0x1_0000_0000 && 0 <= b < 0x2000_0000 && r.Del? && r.id == DataId(i, b) ==>
          m' == Without(m, DataId(i, b), (i + 1) * 0x1_0000_0000, sq))
    && (forall i, h :: 0 <= i < 0x1_0000_0000 && 0 <= h < 0x2000_0000 && r.Del? && r.id == DentarrId(i, h) ==>
          m' == Without(m, DentarrId(i, h), DentarrId(i, h) + 1, sq))
  }

  lemma DeletedRanges(m: Idx, r: Rec)
    ensures Processed(m, r, Apply(m, r))
  {
    hide Without;
    forall i | 0 <= i < 0x1_0000_0000 && r.Del? && r.id == InodeId(i)
      ensures Apply(m, r) == Without(m, InodeId(i), (i + 1) * 0x1_0000_0000, r.addr.sqnum)
    {
      DeletedRange(m, r.id, r.addr, i, 0, 0);
    }
    forall i, b | 0 <= i < 0x1_0000_0000 && 0 <= b < 0x2000_0000 && r.Del? && r.id == DataId(i, b)
      ensures Apply(m, r) == Without(m, DataId(i, b), (i + 1) * 0x1_0000_0000, r.addr.sqnum)
    {
      DeletedRange(m, r.id, r.addr, i, 1, b);
    }
    forall i, h | 0 <= i < 0x1_0000_0000 && 0 <= h < 0x2000_0000 && r.Del? && r.id == DentarrId(i, h)
      ensures Apply(m, r) == Without(m, DentarrId(i, h), DentarrId(i, h) + 1, r.addr.sqnum)
    {
      DeletedRange(m, r.id, r.addr, i, 2, h);
    }
  }

  /** Processes one object or deletion: newest object wins, deletions remove older objects. */
  method ProcessObj(ix: Index, r: Rec)
    requires ix.Valid() && Sound(ix.Contents()) && IndexedType(r.id) && r.addr.sqnum > 0
    modifies ix, ix.f
    ensures ix.Valid() && Sound(ix.Contents())
    ensures ix.Contents() == Apply(old(ix.Contents()), r)
    ensures Processed(old(ix.Contents()), r, ix.Contents())
  {
    hide Sound, IndexedType, Apply, Processed;
    DeletedRanges(ix.Contents(), r);
    SoundAfter(ix.Contents(), r);
    if r.Obj? {
      PutObj(ix, r.id, r.addr);
    } else if TypeField(r.id) == DENTARR_TYPE {
      DropOne(ix, r.id, r.addr);
    } else {
      NilIsNotIndexed();
      Sweep(ix, r.id, r.addr);
    }
  }
}
