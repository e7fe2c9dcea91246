/** Whole runs of the object store: writes, reads, syncs, unmounting, crashes and losses of power. */
module StoreRuns {
  import opened ObjectId
  import opened LogIndex
  import LS = LogSummary
  import opened ObjFormat
  import opened SumFormat
  import opened LebModel
  import opened LebCut
  import opened StoreModel
  import opened StoreSteps
  import opened StoreWrite
  import opened StoreMount
  import opened StoreCut
  import opened StoreAlloc
  import opened StoreCommit
  import opened StoreStamp
  import opened StoreRead
  import opened Restart
  import opened ObjIndex
  import opened ProcObj
  import opened StoreOrder
  import opened StoreMachine
  import opened StoreEffects
  import opened ObjStore

  // ---- mounting -------------------------------------------------------------------------------------------

  datatype Mounting = NoData | NoSuper | Corrupt | Up(s: Store)

  /** Mounts the erase-blocks `flash` with `super` as the number of the newest super object, 0 if there
      is none. It fails exactly if there is no super object or an erase-block cannot be read. */
  method TryMount(c: Config, flash: Flash, super: nat, ghost h0: Hist, ghost objs0: seq<seq<byte>>)
    returns (r: Mounting)
    requires ConfigOk(c) && (super == 0 || FIRST_SQNUM < super) && super + 1 < TWO64
    requires FlashSane(c.crc, c.lebSize, c.lebCnt, flash)
    requires FlashReadable(c.crc, flash) ==>
      MediumOk(c.crc, c.lebSize, c.lebCnt, flash, h0, objs0) && KnownLog(h0.synced)
      && Distinct(Members(h0.synced))
    ensures r.NoData? <==> super == 0 && flash == map[]
    ensures r.NoSuper? <==> super == 0 && flash != map[]
    ensures r.Corrupt? <==> super != 0 && !FlashReadable(c.crc, flash)
    ensures r.Up? ==> r.s.Valid() && r.s.Conf() == c && r.s.flash == flash && r.s.h == Remembered(h0)
    ensures r.Up? ==> |h0.synced| <= |objs0| && SpaceIs(Space(r.s.usedLebs, r.s.nbFree), c.lebCnt, flash)
    ensures r.Up? ==> r.s.Now() == MountState(MountOrder(h0.synced, objs0[..|h0.synced|]), super,
                                              Space(r.s.usedLebs, r.s.nbFree))
    ensures r.Up? ==> r.s.ix.Valid() && IsIndex(r.s.ix.Contents(), Members(h0.synced))
    ensures r.Up? ==> r.s.sqnum == super + 1
    ensures r.Up? ==> fresh(r.s) && fresh(r.s.ix) && fresh(r.s.ix.f) && fresh(r.s.sum)
  {
    hide MediumOk, FlashSane, FlashReadable, KnownLog, InOrder, Index.Valid, Index.Contents, Replay, Sound, IoOk,
         StoreModel.Mounted, Store.Quiet, Members, Distinct, IsIndex, MountOrder;
    if super == 0 {
      return if flash == map[] then NoData else NoSuper;
    }
    var ix := new Index();
    var ok, used, free;
    ghost var os, ds;
    ok, used, free, os, ds := MountScan(c.crc, c.lebSize, c.lebCnt, flash, ix);
    if !ok {
      return Corrupt;
    }
    MediumHist(c.crc, c.lebSize, c.lebCnt, flash, h0, objs0);
    MountRebuilds(c.crc, c.lebSize, flash, h0, os, ds);
    RememberedMedium(c.crc, c.lebSize, c.lebCnt, flash, h0, objs0);
    MountOrderIs(h0.synced);
    IndexUnique(ix.Contents(), Replay(map[], MountOrder(h0.synced, h0.synced)), Members(h0.synced));
    ghost var objs := MountOrder(h0.synced, objs0[..|h0.synced|]);
    var s := new Store.FromScan(c.crc, c.lebSize, c.minIo, c.maxIo, c.lebCnt, c.gc, c.del, flash, super, ix, used, free,
                                Remembered(h0), objs);
    r := Up(s);
  }

  lemma MediumHist(crc: Crc, size: nat, lebCnt: nat, flash: Flash, h: Hist, objs: seq<seq<byte>>)
    requires MediumOk(crc, size, lebCnt, flash, h, objs)
    ensures HistOk(crc, size, flash, h) && |h.synced| <= |h.log| == |objs| && h.synced <= h.log
  {
    hide LiveOk, FlashOk, StoredAt, AllRecs, Grown;
  }

  // ---- one operation ------------------------------------------------------------------------------------------

  /** The erase-blocks in use are those on flash. */
  ghost predicate SpaceIs(s: Space, lebCnt: nat, flash: Flash) {
    && |s.used| == lebCnt && s.nbFree == lebCnt - |flash|
    && forall l :: 0 <= l < lebCnt ==> (s.used[l] <==> l in flash)
  }

  lemma SpaceUnique(s: Space, s': Space, lebCnt: nat, flash: Flash)
    requires SpaceIs(s, lebCnt, flash) && SpaceIs(s', lebCnt, flash)
    ensures s == s'
  {
  }

  lemma SpaceOfKeys(s: Space, lebCnt: nat, live: Lebs, flash: Flash)
    requires FreeOk(lebCnt, s.used, s.nbFree, live) && flash.Keys == live.Keys
    ensures SpaceIs(s, lebCnt, flash)
  {
    assert |flash| == |flash.Keys| && |live| == |live.Keys|;
  }

  lemma SpaceWithout(s: Space, lebCnt: nat, live: Lebs, flash: Flash, l: nat)
    requires FreeOk(lebCnt, s.used, s.nbFree, live) && l in live && flash.Keys == live.Keys - {l}
    ensures SpaceIs(Released(s, l), lebCnt, flash)
  {
    assert |flash| == |flash.Keys| && |live| == |live.Keys|;
    assert live.Keys == flash.Keys + {l};
  }

  lemma SubsetSize(a: set<nat>, b: set<nat>)
    requires a <= b
    ensures |a| <= |b|
  {
    assert b == a + (b - a);
  }

  /** `t` is the store after mounting flash with the objects `objs`. */
  ghost predicate CameBack(c: Config, t: Store, objs: seq<seq<byte>>, super: nat, space: Space)
    reads t, t.sum, t.ix, t.ix.f
  {
    && t.Valid() && t.Conf() == c && t.Now() == MountState(objs, super, space) && InOrder(t.h.log)
    && (t.Ordered() <==> NumbersUpto(RestartNumber(super), objs))
  }

  /** Mounts what the store `s` has left on flash. */
  method Back(s: Store, ghost space: Space) returns (t: Store)
    requires ConfigOk(s.Conf()) && FIRST_SQNUM < s.super && s.super + 1 < TWO64
    requires MediumOk(s.crc, s.lebSize, s.lebCnt, s.flash, s.h, s.objs) && KnownLog(s.h.synced) && InOrder(s.h.synced)
    requires SpaceIs(space, s.lebCnt, s.flash)
    ensures fresh(t) && fresh(t.ix) && fresh(t.ix.f) && fresh(t.sum) && t.h.log == s.h.synced
    ensures |s.h.synced| <= |s.objs| && CameBack(s.Conf(), t, s.objs[..|s.h.synced|], s.super, space)
  {
    hide MediumOk, FlashSane, FlashReadable, KnownLog, InOrder, Index.Valid, Index.Contents, Replay, Sound, IoOk,
         RestartOk, NumbersUpto, Store.Quiet, SpaceIs;
    MediumReadable(s.crc, s.lebSize, s.lebCnt, s.flash, s.h, s.objs);
    MediumHist(s.crc, s.lebSize, s.lebCnt, s.flash, s.h, s.objs);
    InOrderDistinct(s.h.synced);
    SameInOrder(s.h.synced, s.objs[..|s.h.synced|]);
    var r := TryMount(s.Conf(), s.flash, s.super, s.h, s.objs);
    t := r.s;
    SpaceUnique(space, Space(t.usedLebs, t.nbFree), s.lebCnt, s.flash);
    QuietMatches(t);
    RestartNumbers(t.sqnum, t.h.log, t.objs);
  }

  lemma QuietMatches(s: Store)
    requires s.Quiet()
    ensures Matches(s.h.log, s.objs) && (s.w.avail == 0 ==> s.sum.entries == [])
  {
    hide HistOk, BufOk, KnownLog, OpenBound, FreeOk, SuperOk, DataOk, IoOk, Matches;
    DataMatches(s.h.live, s.h.log, s.objs);
    SyncedWhenClosed(s.lebSize, s.minIo, s.h, s.w, s.sum.entries);
  }

  /** What a store has left on flash. */
  lemma QuietFlash(s: Store)
    requires s.Quiet()
    ensures s.h.disk.Keys <= s.h.live.Keys && s.flash.Keys == s.h.disk.Keys
    ensures FreeOk(s.lebCnt, s.usedLebs, s.nbFree, s.h.live) && |s.h.synced| <= |s.objs| == |s.h.log|
    ensures s.h.synced <= s.h.log && FIRST_SQNUM < s.super <= s.sqnum && KnownLog(s.h.log)
  {
    hide LiveOk, FlashOk, BufOk, KnownLog, OpenBound, FreeOk, StoredAt, IoOk, AllRecs;
    CrashedKeys(s.crc, s.lebSize, s.flash, s.h);
  }

  lemma OrderedPrefix(a: seq<Rec>, b: seq<Rec>)
    requires a <= b && InOrder(b)
    ensures InOrder(a)
  {
    forall i, j | 0 <= i < j < |a| ensures Precedes(a[i], a[j]) {
      assert Precedes(b[i], b[j]);
    }
  }

  /** The space that a mount finds. */
  lemma QuietSpace(s: Store)
    requires s.Quiet()
    ensures SpaceIs(SpaceOnFlash(s.Now()), s.lebCnt, s.flash)
  {
    hide HistOk, KnownLog, OpenBound, DataOk, SuperOk, IoOk, FreeOk, SpaceIs, Used, SyncOffs, SumEntries, Avail;
    QuietFlash(s);
    CurIs(s.Conf(), s.h, s.w, s.sum.entries);
    LiveOnDisk(s.lebSize, s.minIo, s.h, s.w, s.sum.entries);
    var space := Space(s.usedLebs, s.nbFree);
    if s.w.avail > 0 && s.w.syncOffs == 0 {
      SpaceWithout(space, s.lebCnt, s.h.live, s.flash, s.w.lnum);
    } else {
      SpaceOfKeys(space, s.lebCnt, s.h.live, s.flash);
    }
  }

  /** Of every erase-block but a new one something is on flash. */
  lemma LiveOnDisk(size: nat, minIo: nat, h: Hist, w: WBuf, es: seq<LS.SumEntry>)
    requires minIo > 0 && BufOk(size, minIo, h, w, es) && h.disk.Keys <= h.live.Keys
    ensures h.disk.Keys == if w.avail > 0 && w.syncOffs == 0 then h.live.Keys - {w.lnum} else h.live.Keys
    ensures w.avail > 0 ==> w.lnum in h.live && h.live.Keys == h.disk.Keys + {w.lnum}
  {
    hide Layout, TailOk, Extends, LS.SumAll, Recs, SumSize;
    forall l | l in h.live && !(l == w.lnum && w.avail > 0) ensures l in h.disk {
      assert OnDisk(h, l);
    }
  }

  /** A crash between two writes to flash, and a mount. */
  method DoCrash(s: Store) returns (t: Store)
    requires s.Quiet() && InOrder(s.h.log) && s.super + 1 < TWO64
    ensures fresh(t) && fresh(t.ix) && fresh(t.ix.f) && fresh(t.sum) && t.h.log == s.h.synced
    ensures |s.h.synced| <= |s.objs|
    ensures CameBack(s.Conf(), t, s.objs[..|s.h.synced|], s.super, SpaceOnFlash(s.Now()))
  {
    hide MediumOk, FlashSane, FlashReadable, KnownLog, InOrder, Index.Valid, Index.Contents, Replay, Sound, RestartOk,
         IoOk, NumbersUpto, HistOk, BufOk, OpenBound, DataOk, FreeOk, SuperOk, CameBack, SpaceIs, SpaceOnFlash, CurOf;
    AlwaysMountable(s);
    QuietFlash(s);
    QuietSpace(s);
    OrderedPrefix(s.h.synced, s.h.log);
    t := Back(s, SpaceOnFlash(s.Now()));
  }

  /** Unmounting and mounting again. */
  method DoUnmount(s: Store, ghost a: State) returns (t: Store)
    requires s.Valid() && s.Ordered() && s.sqnum + 5 < TWO64 && a == s.Now()
    modifies s, s.sum
    ensures fresh(t) && fresh(t.ix) && fresh(t.ix.f) && fresh(t.sum) && t.Valid() && t.Ordered()
    ensures s.minIo > 0 && t.Conf() == s.Conf() && t.sqnum <= a.sqnum + 5 && t.objs == a.objs
    ensures |t.h.synced| == |a.objs| && AfterCrash(AfterUnmount(s.Conf(), a)) == Goes(t.Now(), Done)
  {
    hide KnownLog, InOrder, Index.Valid, Index.Contents, Replay, Sound, RestartOk, IoOk, NumbersUpto, HistOk, BufOk,
         OpenBound, DataOk, FreeOk, SuperOk, Matches, SpaceOnFlash, AfterUnmount, CurOf;
    QuietMin(s);
    s.Unmount();
    QuietFlash(s);
    QuietMatches(s);
    RestartNumbers(RestartNumber(s.super), s.h.log, s.objs);
    assert s.objs[..|s.objs|] == s.objs;
    t := DoCrash(s);
    QuietFlash(t);
  }

  datatype Getting = Again(t: Store) | Lost(why: Ending)

  /** The records in the current erase-block, as a scan of the buffer finds them. */
  lemma BufferRecs(s: Store)
    requires s.Quiet() && s.w.avail > 0
    ensures s.w.lnum in s.h.live && s.w.used <= |s.w.buf|
    ensures ScanRecs(s.crc, s.w.lnum, s.w.buf[..s.w.used]) == Recs(s.w.lnum, s.h.live[s.w.lnum])
  {
    hide Layout, ScanRecs, Recs, LebOk, LiveOk, FlashOk, LogOk, KnownLog, OpenBound, DataOk, FreeOk, SuperOk, TailOk,
         Extends;
    var l, leb := s.w.lnum, s.w.buf[..s.w.used];
    TheLeb(s.crc, s.lebSize, s.flash, s.h, l);
    assert leb[..|leb|] == leb;
    ScanFinds(s.crc, l, leb, s.h.live[l]);
  }

  /** The records on flash, as a scan finds them. */
  lemma FlashRecs(crc: Crc, size: nat, lebCnt: nat, flash: Flash, h: Hist, objs: seq<seq<byte>>, l: nat)
    requires MediumOk(crc, size, lebCnt, flash, h, objs) && l in h.disk
    ensures l in flash && ScanRecs(crc, l, flash[l]) == Recs(l, h.disk[l])
  {
    hide Layout, ScanRecs, Recs, LebOk, LiveOk, FlashOk, LogOk, DataOk, Grown, OnFlash;
    TheDisk(crc, size, flash, h, l);
    ScanFinds(crc, l, flash[l], h.disk[l]);
  }

  /** What a cut between two objects leaves behind. */
  lemma CutBack(c: Config, a: State, h0: Hist, flash: Flash, h: Hist, b: Leb, p: nat)
    requires a.cur.Open? && a.cur.lnum in h0.live && a.cur.leb == h0.live[a.cur.lnum] && !Straddles(b, p)
    requires Cut(c.crc, c.lebSize, c.lebCnt, a.objs, h0, flash, h, a.cur.lnum, b, p)
    requires h0.live.Keys == h0.disk.Keys + {a.cur.lnum} && FreeOk(c.lebCnt, a.space.used, a.space.nbFree, h0.live)
    requires KnownLog(h0.log) && InOrder(h0.log) && |a.objs| == |h0.log|
    ensures MediumOk(c.crc, c.lebSize, c.lebCnt, flash, h, a.objs) && KnownLog(h.synced) && InOrder(h.synced)
    ensures var l := a.cur.lnum; l in h.disk && Recs(l, h.disk[l]) == Recs(l, CutLeb(b, p))
    ensures |h.synced| == CutCountAt(a, b, p) <= |a.objs| && |h0.synced| <= |h.synced|
    ensures SpaceIs(a.space, c.lebCnt, flash)
  {
    hide MediumOk, Recs, Extends, Straddles, CutLeb, CutsSeen, Known, InOrder, FreeOk, FlashSane, FlashReadable,
         SpaceIs;
    OrderedPrefix(h.synced, h0.log);
    MediumHist(c.crc, c.lebSize, c.lebCnt, flash, h, a.objs);
    CrashedKeys(c.crc, c.lebSize, flash, h);
    assert h.disk.Keys == h0.disk.Keys + {a.cur.lnum};
    SpaceOfKeys(a.space, c.lebCnt, h0.live, flash);
  }

  /** What a cut through an object leaves behind, if its checksum tells. */
  lemma CutTold(crc: Crc, size: nat, lebCnt: nat, objs: seq<seq<byte>>, h0: Hist, flash: Flash, h: Hist, l: nat, b: Leb,
                p: nat)
    requires Cut(crc, size, lebCnt, objs, h0, flash, h, l, b, p) && Straddles(b, p) && CutsSeen(crc, b, p)
    ensures FlashSane(crc, size, lebCnt, flash) && !FlashReadable(crc, flash)
  {
    hide MediumOk, Recs, Extends, Straddles, CutLeb, CutsSeen, FlashSane, FlashReadable;
  }

  /** Tries to mount flash with an erase-block that cannot be read. */
  method MountTorn(s: Store) returns (r: Mounting)
    requires ConfigOk(s.Conf()) && FIRST_SQNUM < s.super && s.super + 1 < TWO64
    requires FlashSane(s.crc, s.lebSize, s.lebCnt, s.flash) && !FlashReadable(s.crc, s.flash)
    ensures r.Corrupt?
  {
    hide IoOk, FlashSane, FlashReadable;
    r := TryMount(s.Conf(), s.flash, s.super, s.h, s.objs);
  }

  /** Mounts flash on which the current erase-block was cut at `p`. `others` objects are in other erase-blocks. */
  method TornBack(s: Store, through: bool, seen: bool, p: nat, others: int, ghost a: State, ghost h0: Hist,
                  ghost b: Leb)
    returns (g: Getting, kept: nat)
    requires ConfigOk(s.Conf()) && FIRST_SQNUM < s.super && s.super + 1 < TWO64
    requires s.objs == a.objs && s.super == a.super && a.cur.Open? && a.cur.lnum in h0.live
    requires a.cur.leb == h0.live[a.cur.lnum] && others == |a.objs| - |Recs(a.cur.lnum, a.cur.leb)|
    requires Cut(s.crc, s.lebSize, s.lebCnt, a.objs, h0, s.flash, s.h, a.cur.lnum, b, p) && s.w.lnum == a.cur.lnum
    requires h0.live.Keys == h0.disk.Keys + {a.cur.lnum} && FreeOk(s.lebCnt, a.space.used, a.space.nbFree, h0.live)
    requires KnownLog(h0.log) && InOrder(h0.log) && |a.objs| == |h0.log|
    requires (through <==> Straddles(b, p)) && (seen <==> CutsSeen(s.crc, b, p))
    ensures g.Again? ==> fresh(g.t) && fresh(g.t.ix) && fresh(g.t.ix.f) && fresh(g.t.sum) && kept <= |a.objs|
    ensures g.Again? ==> CameBack(s.Conf(), g.t, a.objs[..kept], a.super, a.space)
    ensures g.Again? ==> AfterCutAt(s.Conf(), a, b, p) == AfterMount(a.objs[..kept], a.super, a.space)
    ensures g.Lost? ==> AfterCutAt(s.Conf(), a, b, p) == Ends(g.why)
  {
    hide MediumOk, FlashSane, FlashReadable, KnownLog, InOrder, IoOk, NumbersUpto, FreeOk, Cut, Straddles, CutsSeen,
         CutLeb, Recs, ScanRecs, CameBack, AfterMount, SpaceIs;
    if through {
      if !seen {
        return Lost(Untold), 0;
      }
      CutTold(s.crc, s.lebSize, s.lebCnt, a.objs, h0, s.flash, s.h, a.cur.lnum, b, p);
      var r := MountTorn(s);
      return Lost(Broken), 0;
    }
    CutBack(s.Conf(), a, h0, s.flash, s.h, b, p);
    FlashRecs(s.crc, s.lebSize, s.lebCnt, s.flash, s.h, s.objs, a.cur.lnum);
    kept := others + |ScanRecs(s.crc, s.w.lnum, s.flash[s.w.lnum])|;
    var t := Back(s, a.space);
    g := Again(t);
  }

  /** Power is lost during a sync, and the store is mounted again. `total` objects have been written, and
      `synced` of them are on flash. */
  method DoCut(s: Store, force: bool, pages: nat, total: nat, synced: nat, ghost a: State)
    returns (g: Getting, kept: nat, ghost space: Space)
    requires s.Valid() && s.Ordered() && s.sqnum + 5 < TWO64 && a == s.Now() && total == |a.objs| && synced == a.synced
    modifies s, s.sum
    ensures s.minIo > 0 && a.synced <= |a.objs|
    ensures g.Again? ==> fresh(g.t) && fresh(g.t.ix) && fresh(g.t.ix.f) && fresh(g.t.sum) && kept <= |a.objs|
    ensures g.Again? ==> CameBack(s.Conf(), g.t, a.objs[..kept], a.super, space)
    ensures g.Again? ==> AfterPowerCut(s.Conf(), a, force, pages) == AfterMount(a.objs[..kept], a.super, space)
    ensures g.Lost? ==> AfterPowerCut(s.Conf(), a, force, pages) == Ends(g.why)
  {
    hide KnownLog, InOrder, Index.Valid, Index.Contents, Replay, Sound, RestartOk, IoOk, NumbersUpto, HistOk, BufOk,
         OpenBound, DataOk, FreeOk, SuperOk, Cut, Straddles, CutsSeen, Recs, ScanRecs, CameBack, AfterMount, AfterSync,
           SyncLeb, SpaceOnFlash, AfterPowerCut, AfterCutAt, SyncEnd, Used, SyncOffs, SumEntries, Keeps;
    QuietFlash(s);
    QuietMin(s);
    PowerCutCases(s.Conf(), a, force, pages);
    ghost var h0 := s.h;
    CurIs(s.Conf(), s.h, s.w, s.sum.entries);
    LiveOnDisk(s.lebSize, s.minIo, s.h, s.w, s.sum.entries);
    var l, open, writes := s.w.lnum, 0, s.w.avail > 0 && (s.w.syncOffs != s.w.used || force) && pages > 0;
    if s.w.avail > 0 {
      BufferRecs(s);
      open := |ScanRecs(s.crc, l, s.w.buf[..s.w.used])|;
    }
    var torn, through, seen, p;
    ghost var b;
    torn, through, seen, p, b := s.CutSync(force, pages);
    kept := if writes then total else synced;
    space := if torn then a.space else SpaceOnFlash(s.Now());
    if !torn {
      SyncKeepsAll(s.Conf(), a, force);
      var t := DoCrash(s);
      return Again(t), kept, space;
    }
    g, kept := TornBack(s, through, seen, p, total - open, a, h0, b);
  }

  /** A run goes on with store `t`, or it ends. */
  datatype Going = On(t: Store, objs: seq<seq<byte>>, synced: nat, ans: Answer) | Off(why: Ending)

  method DoWrite(s: Store, os: seq<seq<byte>>, del: bool, objs: seq<seq<byte>>, synced: nat, ghost a: State)
    returns (ok: bool, objs': seq<seq<byte>>, synced': nat)
    requires s.Valid() && s.Ordered() && OpOk(s.Conf(), Write(os, del)) && s.sqnum + |os| + 2 < TWO64
    requires a == s.Now() && objs == a.objs && synced == a.synced
    modifies s, s.ix, s.ix.f, s.sum
    ensures s.Valid() && s.Ordered() && s.sqnum <= a.sqnum + |os| + 2
    ensures s.objs == objs' && |s.h.synced| == synced' && Written(s.Conf(), a, os, del, s.Now(), ok)
  {
    hide Store.Quiet, Index.Valid, Index.Contents, Replay, Sound, SumSize, SumSizeWithExtra, Concat, Writable,
         WriteSpace, InOrder, RestartOk, IsPacked, Written, CurOf;
    QuietFlash(s);
    var serial := SerialSize(os);
    var fits := s.w.avail > 0 && s.w.avail >= serial + SumSizeWithExtra(|s.sum.entries|, |os|);
    var ps;
    ok, ps := s.WriteObjList(os, del);
    objs', synced' := if ok then objs + ps else objs, if fits then synced else |objs|;
  }

  method DoSync(s: Store, ghost a: State)
    requires s.Valid() && s.Ordered() && s.sqnum + 5 < TWO64 && a == s.Now()
    modifies s, s.sum
    ensures s.Valid() && s.Ordered() && s.objs == a.objs && |s.h.synced| == |a.objs| && s.sqnum <= a.sqnum + 5
    ensures s.minIo > 0 && s.Now() == AfterSync(s.Conf(), a, false)
  {
    hide Store.Quiet, Index.Valid, Index.Contents, Replay, Sound, InOrder, RestartOk, OnFlashAt, AllSynced, AfterSync,
         CurOf;
    QuietFlash(s);
    QuietMin(s);
    QuietRestart(s);
    s.Sync(false);
    QuietFlash(s);
  }

  /** Runs one operation. `objs` are the objects written so far, `synced` of them on flash. */
  method RunOp(s: Store, op: Op, objs: seq<seq<byte>>, synced: nat, ghost a: State) returns (g: Going)
    requires s.Valid() && s.Ordered() && OpOk(s.Conf(), op) && s.sqnum + Takes(op) < TWO64
    requires a == s.Now() && objs == a.objs && synced == a.synced
    modifies s, s.ix, s.ix.f, s.sum
    ensures g.On? ==> g.t == s || (fresh(g.t) && fresh(g.t.ix) && fresh(g.t.ix.f) && fresh(g.t.sum))
    ensures g.On? ==> g.t.Valid() && g.t.Ordered() && g.t.Conf() == s.Conf() && g.t.sqnum <= a.sqnum + Takes(op)
    ensures g.On? ==> g.objs == g.t.objs && g.synced == |g.t.h.synced| <= |g.objs|
    ensures s.minIo > 0 && Effect(s.Conf(), op, a) == if g.On? then Goes(g.t.Now(), g.ans) else Ends(g.why)
  {
    hide Store.Quiet, Index.Valid, Index.Contents, Replay, Sound, InOrder, RestartOk, NumbersUpto, OnFlashAt, AllSynced,
         Lookup, AfterWrite, AfterSync, AfterPowerCut, AfterUnmount, SpaceOnFlash, CurOf;
    QuietFlash(s);
    QuietMin(s);
    match op {
      case Write(os, del) =>
        var ok, objs', synced' := DoWrite(s, os, del, objs, synced, a);
        QuietFlash(s);
        g := On(s, objs', synced', Stored(ok));
      case SyncAll =>
        DoSync(s, a);
        g := On(s, objs, |objs|, Done);
      case Read(id, len) =>
        var v := s.ReadObj(id, len);
        g := On(s, objs, synced, Value(v));
      case Unmount =>
        var t := DoUnmount(s, a);
        g := On(t, objs, |objs|, Done);
      case Crash =>
        var t := DoCrash(s);
        g := if NumbersUpto(RestartNumber(s.super), objs[..synced]) then On(t, objs[..synced], synced, Done)
          else Off(Stale);
      case PowerCut(force, pages) =>
        var super := s.super;
        var r, kept, space := DoCut(s, force, pages, |objs|, synced, a);
        if r.Lost? {
          g := Off(r.why);
        } else if NumbersUpto(RestartNumber(super), objs[..kept]) {
          g := On(r.t, objs[..kept], kept, Done);
        } else {
          g := Off(Stale);
        }
    }
  }

  lemma QuietMin(s: Store)
    requires s.Quiet()
    ensures s.minIo > 0
  {
  }

  /** Larger numbers are all right too. */
  lemma QuietRestart(s: Store)
    ensures forall n, n' :: n <= n' && RestartOk(n, s.h.log) ==> RestartOk(n', s.h.log)
  {
    forall n, n' | n <= n' && RestartOk(n, s.h.log) ensures RestartOk(n', s.h.log) {
      LaterRestart(s.h.log, n, n');
    }
  }

  // ---- whole runs ---------------------------------------------------------------------------------------------

  ghost function AllTakes(ops: seq<Op>): nat {
    if ops == [] then 0 else AllTakes(ops[..|ops| - 1]) + Takes(ops[|ops| - 1])
  }

  lemma {:induction false} TakesUpto(ops: seq<Op>, k: nat)
    requires k < |ops|
    ensures AllTakes(ops[..k + 1]) == AllTakes(ops[..k]) + Takes(ops[k]) <= AllTakes(ops)
    decreases |ops| - k
  {
    assert ops[..k + 1][..k] == ops[..k];
    if k + 1 < |ops| {
      TakesUpto(ops, k + 1);
    } else {
      assert ops[..k + 1] == ops;
    }
  }

  /** Operation `op` can be run from `a`. */
  ghost predicate CanRun(c: Config, op: Op, a: State) {
    c.minIo > 0 && OpOk(c, op) && a.sqnum + Takes(op) < TWO64
  }

  /** `trace` holds the states before the operations and at the end, `answers` what they returned. */
  ghost predicate RunOk(c: Config, ops: seq<Op>, answers: seq<Answer>, trace: seq<State>) {
    && |answers| <= |ops| && |trace| == |answers| + 1
    && (forall i :: 0 <= i < |answers| ==> StepAt(c, ops, answers, trace, i))
    && (forall i :: 0 <= i < |trace| ==> StateOk(c, trace[i]))
  }

  ghost predicate StepAt(c: Config, ops: seq<Op>, answers: seq<Answer>, trace: seq<State>, i: nat)
    requires i < |answers| <= |ops| && |trace| == |answers| + 1
  {
    CanRun(c, ops[i], trace[i]) && Effect(c, ops[i], trace[i]) == Goes(trace[i + 1], answers[i])
  }

  ghost predicate EndsAt(c: Config, op: Op, a: State, why: Ending) {
    CanRun(c, op, a) && Effect(c, op, a) == Ends(why)
  }

  lemma RunNone(c: Config, ops: seq<Op>, a: State)
    requires StateOk(c, a)
    ensures RunOk(c, ops, [], [a]) && AllTakes(ops[..0]) == 0
  {
  }

  lemma RunMore(c: Config, ops: seq<Op>, answers: seq<Answer>, trace: seq<State>, ans: Answer, z: State)
    requires RunOk(c, ops, answers, trace) && |answers| < |ops| && StateOk(c, z)
    requires CanRun(c, ops[|answers|], trace[|answers|])
    requires Effect(c, ops[|answers|], trace[|answers|]) == Goes(z, ans)
    ensures RunOk(c, ops, answers + [ans], trace + [z])
  {
    hide Effect, StateOk, CanRun;
    var as', trace' := answers + [ans], trace + [z];
    forall i | 0 <= i < |as'| ensures StepAt(c, ops, as', trace', i) {
      if i < |answers| { assert StepAt(c, ops, answers, trace, i); }
    }
  }

  /** Runs any sequence of operations, until one of them ends the run. */
  method RunStore(s0: Store, ops: seq<Op>, objs0: seq<seq<byte>>, synced0: nat)
    returns (g: Going, answers: seq<Answer>, ghost trace: seq<State>)
    requires s0.Valid() && s0.Ordered() && (forall op :: op in ops ==> OpOk(s0.Conf(), op))
    requires objs0 == s0.objs && synced0 == |s0.h.synced| && s0.sqnum + AllTakes(ops) < TWO64
    modifies s0, s0.ix, s0.ix.f, s0.sum
    ensures RunOk(s0.Conf(), ops, answers, trace) && trace[0] == old(s0.Now())
    ensures g.On? ==> |answers| == |ops| && g.t.Valid() && g.t.Ordered() && g.t.Now() == trace[|ops|]
    ensures g.Off? ==> |answers| < |ops| && EndsAt(s0.Conf(), ops[|answers|], trace[|answers|], g.why)
  {
    hide Store.Quiet, Index.Valid, Index.Contents, Replay, Sound, InOrder, RestartOk, OpOk, Effect, RunOk, AllTakes,
         Takes, StateOk, CurOf;
    QuietMin(s0);
    ghost var c := s0.Conf();
    var s, objs, synced := s0, objs0, synced0;
    answers, trace := [], [s0.Now()];
    QuietState(s0);
    RunNone(c, ops, s0.Now());
    for k := 0 to |ops|
      invariant s == s0 || (fresh(s) && fresh(s.ix) && fresh(s.ix.f) && fresh(s.sum))
      invariant s.Valid() && s.Ordered() && s.Conf() == c && s.sqnum <= old(s0.sqnum) + AllTakes(ops[..k])
      invariant |answers| == k && |trace| == k + 1 && trace[k] == s.Now() && trace[0] == old(s0.Now())
      invariant c.minIo > 0 && objs == s.objs && synced == |s.h.synced| && RunOk(c, ops, answers, trace)
    {
      TakesUpto(ops, k);
      assert ops[k] in ops;
      g := RunOp(s, ops[k], objs, synced, s.Now());
      if g.Off? {
        return;
      }
      QuietState(g.t);
      RunMore(c, ops, answers, trace, g.ans, g.t.Now());
      answers, trace := answers + [g.ans], trace + [g.t.Now()];
      s, objs, synced := g.t, g.objs, g.synced;
    }
    g := On(s, objs, synced, Done);
  }

  /** The state of a store is one of those that the machine can be in. */
  lemma QuietState(s: Store)
    requires s.Quiet() && s.Ordered()
    ensures StateOk(s.Conf(), s.Now())
  {
    hide HistOk, BufOk, KnownLog, OpenBound, FreeOk, DataOk, IoOk, CurOk, Matches, InOrder, RestartOk, NumbersUpto;
    QuietFlash(s);
    QuietMatches(s);
    RestartNumbers(s.sqnum, s.h.log, s.objs);
    CurIs(s.Conf(), s.h, s.w, s.sum.entries);
    if s.w.avail > 0 {
      OpenCur(s.Conf(), s.flash, s.h, s.w, s.sum.entries);
      UsedHere(s.lebCnt, s.usedLebs, s.nbFree, s.h.live, s.w.lnum);
    } else {
      SyncedWhenClosed(s.lebSize, s.minIo, s.h, s.w, s.sum.entries);
    }
  }

  lemma UsedHere(lebCnt: nat, used: seq<bool>, nbFree: int, live: Lebs, l: nat)
    requires FreeOk(lebCnt, used, nbFree, live) && l in live
    ensures l < |used| && used[l]
  {
  }

  lemma OpenCur(c: Config, flash: Flash, h: Hist, w: WBuf, es: seq<LS.SumEntry>)
    requires c.minIo > 0 && HistOk(c.crc, c.lebSize, flash, h) && BufOk(c.lebSize, c.minIo, h, w, es) && w.avail > 0
    ensures var k := CurOf(h, w);
            && k.Open? && CurOk(c, k) && |Recs(k.lnum, k.leb)| <= |h.log|
            && |h.synced| == |h.log| - |Recs(k.lnum, k.leb)| + |Recs(k.lnum, k.disk)|
  {
    hide LiveOk, FlashOk, LogOk, LebOk, Layout, Recs, LS.SumAll, SumSize;
    CurIs(c, h, w, es);
    TheLeb(c.crc, c.lebSize, flash, h, w.lnum);
    EmptyFits(c.crc, c.lebSize, w.lnum);
    EmptyLebOk(c.crc);
    if w.lnum in h.disk {
      DiskLeb(c.crc, c.lebSize, flash, h, w.lnum);
    }
  }

  // ---- what lasts -----------------------------------------------------------------------------------------------

  lemma StateSynced(c: Config, a: State)
    requires StateOk(c, a)
    ensures a.synced <= |a.objs|
  {
    hide CurOk, ConfigOk, NumbersUpto, NumbersOk, Recs;
  }

  lemma StepKeeps(c: Config, ops: seq<Op>, answers: seq<Answer>, trace: seq<State>, i: nat)
    requires RunOk(c, ops, answers, trace) && i < |answers|
    ensures Keeps(trace[i], trace[i + 1])
  {
    hide Effect, StateOk, Keeps;
    assert StepAt(c, ops, answers, trace, i);
    EffectKeeps(c, ops[i], trace[i], trace[i + 1], answers[i]);
  }

  lemma {:induction false} RunKeeps(c: Config, ops: seq<Op>, answers: seq<Answer>, trace: seq<State>, i: nat, j: nat)
    requires RunOk(c, ops, answers, trace) && i <= j < |trace|
    ensures trace[i].synced <= |trace[i].objs| && trace[j].synced <= |trace[j].objs|
    ensures trace[i].objs[..trace[i].synced] <= trace[j].objs[..trace[j].synced]
    decreases j - i
  {
    hide Effect, StateOk, CanRun;
    StateSynced(c, trace[i]);
    StateSynced(c, trace[j]);
    if i < j {
      RunKeeps(c, ops, answers, trace, i, j - 1);
      assert StepAt(c, ops, answers, trace, j - 1);
      StepKeeps(c, ops, answers, trace, j - 1);
    }
  }

  /** The reserves: while nothing is deleted, the free erase-blocks reserved for deletions stay free through
      writes, crashes and losses of power, and deletions leave those reserved for garbage collection. */
  lemma {:induction false} RunSpares(c: Config, ops: seq<Op>, answers: seq<Answer>, trace: seq<State>, i: nat, j: nat,
                                     deletes: bool)
    requires RunOk(c, ops, answers, trace) && i <= j < |trace|
    requires deletes || forall k :: i <= k < j && ops[k].Write? ==> !ops[k].del
    requires trace[i].space.nbFree >= c.gc + (if deletes then 0 else c.del) - 1
    ensures trace[j].space.nbFree >= c.gc + (if deletes then 0 else c.del) - 1
    decreases j - i
  {
    hide Effect, StateOk;
    if i < j {
      RunSpares(c, ops, answers, trace, i, j - 1, deletes);
      assert StepAt(c, ops, answers, trace, j - 1);
      EffectSpares(c, ops[j - 1], trace[j - 1], trace[j], answers[j - 1]);
    }
  }

  /** Durability: what the store holds when a sync or an unmount returns is at the beginning of what it
      holds ever after, whatever writes, crashes and losses of power follow. */
  lemma SyncLasts(c: Config, ops: seq<Op>, answers: seq<Answer>, trace: seq<State>, i: nat, j: nat)
    requires RunOk(c, ops, answers, trace) && i < |answers| && (ops[i].SyncAll? || ops[i].Unmount?)
    requires i < j < |trace|
    ensures trace[i].objs <= trace[i + 1].objs <= trace[j].objs
  {
    hide Effect, StateOk;
    assert StepAt(c, ops, answers, trace, i);
    SyncedEffect(c, ops[i], trace[i], trace[i + 1], answers[i]);
    RunKeeps(c, ops, answers, trace, i + 1, j);
  }
}
