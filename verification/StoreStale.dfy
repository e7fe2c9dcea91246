/** What goes wrong when a store goes on from a number below those on flash, and a run in which it does. */
module StoreStale {
  import opened ObjectId
  import opened LogIndex
  import opened ObjFormat
  import opened SumFormat
  import opened LebModel
  import opened StoreModel
  import opened StoreSteps
  import opened StoreWrite
  import opened StoreMount
  import opened StoreAlloc
  import opened StoreCommit
  import opened StoreStamp
  import Pages
  import opened StoreRead
  import opened Restart
  import opened ObjIndex
  import opened ProcObj
  import opened StoreMachine
  import opened ObjStore
  import opened StoreRuns
  import T = Transactions

  predicate Storable(lebSize: nat, y: seq<byte>) {
    Writable(y) && TypeOf(y) != DEL_TYPE && |y| + SumSizeWithExtra(0, 1) <= lebSize
  }

  lemma StorableFits(lebSize: nat, y: seq<byte>)
    requires Storable(lebSize, y)
    ensures forall sq: nat :: sq + 1 < TWO64 ==> CanPack([y], sq)
    ensures Writable(y) && |y| >= 32 && TypeOf(y) != DEL_TYPE && T.Proper([y]) && |Concat([y])| == |y|
    ensures |y| + SumSize(1) <= lebSize && |y| + SumSizeWithExtra(0, 1) <= lebSize
  {
    ReservedIsEnough(0, 1);
    ConcatNothing();
    assert [y][..0] == [];
    ConcatNext([y], 0);
    assert [y][..1] == [y];
  }

  /** One object more: what the index makes of it, and what a reader expects. */
  lemma OneMore(log: seq<Rec>, objs: seq<seq<byte>>, log': seq<Rec>, objs': seq<seq<byte>>, p: seq<byte>, sq: nat)
    requires Matches(log, objs) && Matches(log', objs') && log <= log' && |log'| == |log| + 1 && objs' == objs + [p]
    requires Numbered(p, sq) && TypeOf(p) != DEL_TYPE
    ensures log' == log + [log'[|log|]] && log'[|log|].Obj? && log'[|log|].id == IdOf(p) && log'[|log|].addr.sqnum == sq
    ensures forall len: nat :: Lookup(objs', IdOf(p), len) == if len < |p| then TooSmall else Got(p)
  {
    hide Lookup, Covers, SqnumOf;
    assert RecordOf(log'[|log|], objs'[|log|]);
    assert log' == log'[..|log|] + [log'[|log|]] && log'[..|log|] == log;
    forall len: nat ensures Lookup(objs', IdOf(p), len) == if len < |p| then TooSmall else Got(p) {
      LookupLast(objs', IdOf(p), len);
    }
  }

  lemma LookupLast(objs: seq<seq<byte>>, id: ObjId, len: nat)
    requires objs != [] && HasId(objs[|objs| - 1]) && TypeOf(objs[|objs| - 1]) != DEL_TYPE
    requires IdOf(objs[|objs| - 1]) == id
    ensures Lookup(objs, id, len) == if len < |objs[|objs| - 1]| then TooSmall else Got(objs[|objs| - 1])
  {
  }

  /** An object with too low a number does not get into the index. */
  lemma StaleIndex(log: seq<Rec>, r: Rec, i: int)
    requires InOrder(log) && r.Obj? && NewestAt(log, i, r.id) && r.addr.sqnum <= log[i].addr.sqnum
    ensures 0 <= i < |log| && log[i] == Obj(r.id, log[i].addr)
    ensures var m := Replay(map[], log + [r]); r.id in m && m[r.id] == log[i].addr
  {
    hide InOrder, Replay;
    ReplayAnswers(log);
    NewestFields(log, i, r.id);
    ReplaySnoc(map[], log, r);
  }

  /** A store whose next number is not above that of an indexed object: writing that object again does not
      show. A reader gets the old object, where the last one written is due. */
  method StaleWrite(t: Store, y: seq<byte>, len: nat, ghost i: int)
    returns (ok: bool, r: ReadResult, ghost p: seq<byte>)
    requires t.Valid() && InOrder(t.h.log) && t.sqnum + 3 < TWO64 && Storable(t.lebSize, y)
    requires NewestAt(t.h.log, i, IdOf(y)) && t.sqnum < t.h.log[i].addr.sqnum
    modifies t, t.ix, t.ix.f, t.sum
    ensures ok <==> WriteSpace(old(Space(t.usedLebs, t.nbFree)), old(t.w.avail) > 0,
                               old(t.w.avail >= |y| + SumSizeWithExtra(|t.sum.entries|, 1)), true,
                               t.nbReservedGc, t.nbReservedDel, false).0
    ensures 0 <= i < |old(t.objs)|
    ensures ok ==> SameObject(y, p) && t.objs == old(t.objs) + [p] && SqnumOf(p) == old(t.sqnum) + 1
    ensures ok ==> r == if len < |old(t.objs)[i]| then TooSmall else Got(old(t.objs)[i])
    ensures ok ==> Lookup(t.objs, IdOf(y), len) == if len < |p| then TooSmall else Got(p)
  {
    hide Written, CurOf, CanPack, Store.Quiet, Index.Valid, Index.Contents, Replay, Sound, InOrder, RestartOk, Writable,
         Concat, SumSize, SumSizeWithExtra, WriteSpace, Lookup, NewestAt, Storable, Matches, SameObject, IdOf, HasId;
    StorableFits(t.lebSize, y);
    QuietMatches(t);
    MatchesSize(t.h.log, t.objs);
    ghost var log, objs, sq := t.h.log, t.objs, t.sqnum;
    NewestFields(log, i, IdOf(y));
    var ps;
    p := [];
    ok, ps := t.WriteObjList([y], false);
    r := t.ReadObj(IdOf(y), len);
    if ok {
      OneStamped(t.crc, y, ps, sq);
      p := ps[0];
      QuietMatches(t);
      OneMore(log, objs, t.h.log, t.objs, p, sq + 1);
      StaleIndex(log, t.h.log[|log|], i);
      MatchesSize(t.h.log, t.objs);
      assert t.h.log[i] == log[i] && t.objs[i] == objs[i];
    }
  }

  lemma MatchesSize(log: seq<Rec>, objs: seq<seq<byte>>)
    requires Matches(log, objs)
    ensures |log| == |objs|
  {
  }

  lemma OneStamped(crc: Crc, y: seq<byte>, ps: seq<seq<byte>>, sq: nat)
    requires |y| >= 32 && Stamps([y], ps) && TransOk(crc, ps, sq)
    ensures ps == [ps[0]] && SameObject(y, ps[0]) && Numbered(ps[0], sq + 1) && TypeOf(ps[0]) == TypeOf(y)
    ensures IdOf(ps[0]) == IdOf(y) && |ps[0]| == |y| && SqnumOf(ps[0]) == sq + 1
  {
    assert SameObject([y][0], ps[0]);
    assert Numbered(ps[0], sq + 1 + 0);
    assert ps[0][24..32] == ps[0][24..][..8] && y[24..32] == y[24..][..8];
  }

  // ---- a run ------------------------------------------------------------------------------------------------

  lemma {:induction false} AllUsed(used: seq<bool>, i: nat)
    requires FirstUnused(used, i) >= |used|
    ensures forall l :: i <= l < |used| ==> used[l]
    decreases |used| - i
  {
    if i < |used| {
      AllUsed(used, i + 1);
    }
  }

  /** With more than the first erase-blocks free there is one to be had. */
  lemma RoomLeft(s: Store)
    requires s.Quiet() && s.nbFree >= s.nbReservedGc + s.nbReservedDel && s.nbFree > LOG_FST_LNUM
    ensures CanAlloc(s.usedLebs, s.nbFree, s.nbReservedGc, s.nbReservedDel, false)
  {
    hide HistOk, BufOk, KnownLog, OpenBound, DataOk, SuperOk, IoOk, FirstUnused;
    if FirstUnused(s.usedLebs, LOG_FST_LNUM) >= |s.usedLebs| {
      AllUsed(s.usedLebs, LOG_FST_LNUM);
      assert |s.h.live| == |s.h.live.Keys|;
      var log := LogLebs(s.lebCnt);
      assert log <= s.h.live.Keys;
      SubsetSize(log, s.h.live.Keys);
      assert false;
    }
  }

  /** The erase-blocks of the log on a medium of `n` erase-blocks. */
  function LogLebs(n: nat): (ls: set<nat>)
    ensures |ls| >= n - LOG_FST_LNUM
    ensures forall l :: l in ls ==> LOG_FST_LNUM <= l < n
    decreases n
  {
    if n <= LOG_FST_LNUM then {} else LogLebs(n - 1) + {n - 1}
  }

  lemma FindsRoom(s: Space, open: bool, fits: bool, gc: nat, del: nat)
    requires CanAlloc(s.used, s.nbFree, gc, del, false)
    ensures var (ok, s') := WriteSpace(s, open, fits, true, gc, del, false); ok && s'.nbFree >= s.nbFree - 1
  {
    hide FirstUnused;
  }

  /** Writes one object; there is room. */
  method WriteOne(s: Store, x: seq<byte>) returns (ghost p: seq<byte>)
    requires s.Valid() && s.Ordered() && Storable(s.lebSize, x) && s.sqnum + 3 < TWO64
    requires s.nbFree >= s.nbReservedGc + s.nbReservedDel && s.nbFree > LOG_FST_LNUM
    modifies s, s.ix, s.ix.f, s.sum
    ensures s.Valid() && s.Ordered() && s.nbFree >= old(s.nbFree) - 1 && s.super == old(s.super)
    ensures s.objs == old(s.objs) + [p] && SameObject(x, p) && SqnumOf(p) == old(s.sqnum) + 1
    ensures IdOf(p) == IdOf(x) && TypeOf(p) == TypeOf(x) && old(s.sqnum) < s.sqnum <= old(s.sqnum) + 3
  {
    hide Store.Quiet, Index.Valid, Index.Contents, Replay, Sound, InOrder, RestartOk, Writable, Concat, SumSize,
         SumSizeWithExtra, WriteSpace, Storable, SameObject, IdOf, HasId, TransOk, Stamps, CanAlloc, SqnumOf;
    StorableFits(s.lebSize, x);
    RoomLeft(s);
    FindsRoom(Space(s.usedLebs, s.nbFree), s.w.avail > 0, s.w.avail >= |x| + SumSizeWithExtra(|s.sum.entries|, 1),
              s.nbReservedGc, s.nbReservedDel);
    ghost var sq := s.sqnum;
    var ok, ps := s.WriteObjList([x], false);
    OneStamped(s.crc, x, ps, sq);
    p := ps[0];
  }

  /** The last of two objects of the same id. */
  lemma SecondNewest(log: seq<Rec>, objs: seq<seq<byte>>, id: ObjId)
    requires Matches(log, objs) && |objs| == 2 && HasId(objs[1]) && TypeOf(objs[1]) != DEL_TYPE && IdOf(objs[1]) == id
    ensures NewestAt(log, 1, id) && log[1].addr.sqnum == SqnumOf(objs[1])
  {
    hide SqnumOf, IdOf;
    assert RecordOf(log[1], objs[1]);
  }

  /** Format, write `x` twice, and sync. */
  method WriteTwice(c: Config, x: seq<byte>) returns (s: Store, ghost p: seq<byte>)
    requires ConfigOk(c) && c.lebCnt >= c.gc + c.del + 10 && Storable(c.lebSize, x)
    ensures fresh(s) && s.Quiet() && InOrder(s.h.log) && s.Conf() == c && s.super == 3 && s.h.synced == s.h.log
    ensures |s.objs| == 2 && s.objs[1] == p && SameObject(x, p) && IdOf(p) == IdOf(x) && TypeOf(p) == TypeOf(x)
    ensures SqnumOf(p) > 4 && s.nbFree >= c.lebCnt - 2
  {
    hide CurOf, CanPack, SyncLeb, SyncTakes, Closes, Store.Quiet, Index.Valid, Index.Contents, Replay, Sound, InOrder,
         RestartOk, Writable, SumSize, SumSizeWithExtra, WriteSpace, Storable, SameObject, IdOf, HasId, CanAlloc,
           SqnumOf, Matches, NewestAt, IoOk, NumbersUpto, Lookup, OnFlashAt, AllSynced, Pages.Align, MustClose;
    StorableFits(c.lebSize, x);
    s := new Store.Format(c.crc, c.lebSize, c.minIo, c.maxIo, c.lebCnt, c.gc, c.del);
    ghost var p1 := WriteOne(s, x);
    p := WriteOne(s, x);
    QuietRestart(s);
    s.Sync(false);
  }

  /** Format, write `x` twice, sync, crash, mount, write `y` under the same id, and read: the answer is `x`. */
  method StaleRun(c: Config, x: seq<byte>, y: seq<byte>, len: nat) returns (r: ReadResult)
    requires ConfigOk(c) && c.lebCnt >= c.gc + c.del + 10 && Storable(c.lebSize, x) && Storable(c.lebSize, y)
    requires IdOf(x) == IdOf(y) && |x| <= len
    ensures r.Got? && SameObject(x, r.o)
  {
    hide CurOf, CanPack, SyncLeb, SyncTakes, Closes, Store.Quiet, Index.Valid, Index.Contents, Replay, Sound, InOrder,
         RestartOk, Writable, SumSize, SumSizeWithExtra, WriteSpace, Storable, SameObject, IdOf, HasId, CanAlloc,
           SqnumOf, Matches, NewestAt, IoOk, NumbersUpto, Lookup, OnFlashAt, AllSynced, Pages.Align, MustClose;
    StorableFits(c.lebSize, x);
    StorableFits(c.lebSize, y);
    var s;
    ghost var p2;
    s, p2 := WriteTwice(c, x);
    QuietFlash(s);
    var t := DoCrash(s);
    assert s.objs[..2] == s.objs;
    QuietMatches(t);
    SameHasId(x, p2);
    SecondNewest(t.h.log, t.objs, IdOf(x));
    RoomLeft(t);
    FindsRoom(Space(t.usedLebs, t.nbFree), t.w.avail > 0, t.w.avail >= |y| + SumSizeWithExtra(|t.sum.entries|, 1), c.gc,
              c.del);
    var ok;
    ghost var p;
    ok, r, p := StaleWrite(t, y, len, 1);
    SameSize(x, p2);
  }

  lemma SameHasId(x: seq<byte>, p: seq<byte>)
    requires SameObject(x, p) && Writable(x)
    ensures HasId(p)
  {
  }

  lemma SameSize(x: seq<byte>, p: seq<byte>)
    requires SameObject(x, p)
    ensures |x| == |p|
  {
  }
}
