/** The object store of BilbyFs: transactions of objects appended to erase-blocks through a write
    buffer, an index of the newest object per id, and a summary that closes each erase-block. */
module ObjStore {
  import opened ObjectId
  import opened LogIndex
  import LS = LogSummary
  import opened ObjFormat
  import opened SumFormat
  import opened LebModel
  import opened LebCut
  import opened StoreModel
  import opened StoreSteps
  import opened StoreSync
  import opened StoreWrite
  import opened StoreMount
  import opened StoreCut
  import opened StoreAlloc
  import opened StoreCommit
  import opened StoreStamp
  import opened StoreRead
  import opened Pages
  import opened Restart
  import opened StoreMachine
  import opened ObjIndex
  import opened ProcObj
  import T = Transactions

  class Store {
    const crc: Crc
    const lebSize: nat
    const minIo: nat
    const maxIo: nat
    const lebCnt: nat
    const nbReservedGc: nat
    const nbReservedDel: nat
    const ix: Index
    const sum: LS.Summary
    /** The erase-blocks of the log, and the number of the newest super object. */
    var flash: Flash
    var super: nat
    /** The number of the super object found when mounting, 0 if there was none. */
    const superMounted: nat
    var w: WBuf
    var usedLebs: seq<bool>
    var nbFree: int
    var sqnum: nat
    /** Everything written so far, erase-block by erase-block and as a log. */
    ghost var h: Hist
    /** The objects of the log `h.log`. */
    ghost var objs: seq<seq<byte>>

    ghost predicate Quiet()
      reads this, sum
    {
      && minIo > 0 && IoOk(lebSize, minIo) && maxIo > 0 && maxIo % minIo == 0
      && HistOk(crc, lebSize, flash, h) && BufOk(lebSize, minIo, h, w, sum.entries)
      && KnownLog(h.log) && OpenBound(h, w, sqnum) && sqnum < TWO64 && DataOk(h.live, h.log, objs)
      && FreeOk(lebCnt, usedLebs, nbFree, h.live) && SuperOk(super, superMounted, sqnum, h.synced == h.log)
    }

    /** The index is what processing all records in the order written makes of it. */
    ghost predicate Valid()
      reads this, sum, ix, ix.f
    {
      Quiet() && ix.Valid() && Sound(ix.Contents()) && ix.Contents() == Replay(map[], h.log)
    }

    function Conf(): Config {
      Config(crc, lebSize, minIo, maxIo, lebCnt, nbReservedGc, nbReservedDel)
    }

    /** Where the store writes. */
    ghost function Here(): Current
      reads this
    {
      CurOf(h, w)
    }

    /** The state of the store. */
    ghost function Now(): State
      reads this
    {
      State(objs, |h.synced|, super, superMounted, sqnum, Here(), Space(usedLebs, nbFree))
    }

    /** The log is in the order of its numbers, and the next number may follow. */
    ghost predicate Ordered()
      reads this
    {
      InOrder(h.log) && RestartOk(sqnum, h.log)
    }

    /** A store on a medium whose erase-blocks have been scanned into `ix`. */
    constructor FromScan(crc: Crc, lebSize: nat, minIo: nat, maxIo: nat, lebCnt: nat, nbReservedGc: nat,
                         nbReservedDel: nat, flash: Flash, super: nat, ix: Index, used: seq<bool>, nbFree: int,
                         ghost h0: Hist, ghost objs0: seq<seq<byte>>)
      requires IoOk(lebSize, minIo) && maxIo > 0 && maxIo % minIo == 0 && FIRST_SQNUM < super && super + 1 < TWO64
      requires MediumOk(crc, lebSize, lebCnt, flash, h0, objs0) && KnownLog(h0.synced)
      requires ix.Valid() && Sound(ix.Contents()) && ix.Contents() == Replay(map[], h0.synced)
      requires |used| == lebCnt && nbFree == lebCnt - |flash| && forall l :: 0 <= l < lebCnt ==>
                 (used[l] <==> l in flash)
      ensures Valid() && this.crc == crc && this.lebSize == lebSize && this.minIo == minIo && this.maxIo == maxIo
      ensures this.lebCnt == lebCnt && this.nbReservedGc == nbReservedGc && this.nbReservedDel == nbReservedDel
      ensures this.flash == flash && this.super == superMounted == super && sqnum == RestartNumber(super) == super + 1
      ensures usedLebs == used && this.nbFree == nbFree && w.avail == 0
      ensures this.ix == ix && fresh(sum)
      ensures h == Crashed(h0) && |h0.synced| <= |objs0| && objs == objs0[..|h0.synced|]
    {
      hide HistOk, DataOk, Grown, Index.Valid, Index.Contents, Replay, Sound, Bytes, Layout, KnownLog, OpenOk;
      CrashedMedium(crc, lebSize, lebCnt, flash, h0, objs0);
      CrashedKeys(crc, lebSize, flash, h0);
      this.crc, this.lebSize, this.minIo, this.maxIo, this.lebCnt := crc, lebSize, minIo, maxIo, lebCnt;
      this.nbReservedGc, this.nbReservedDel := nbReservedGc, nbReservedDel;
      this.ix := ix;
      sum := new LS.Summary();
      this.flash, this.super, superMounted, sqnum := flash, super, super, RestartNumber(super);
      w := WBuf(0, Bytes(0, lebSize), 0, 0, 0);
      h, objs := Crashed(h0), objs0[..|h0.synced|];
      usedLebs, this.nbFree := used, nbFree;
    }

    /** An empty store on erased flash, with its first super object. */
    constructor Format(crc: Crc, lebSize: nat, minIo: nat, maxIo: nat, lebCnt: nat, nbReservedGc: nat,
                       nbReservedDel: nat)
      requires IoOk(lebSize, minIo) && maxIo > 0 && maxIo % minIo == 0
      ensures Valid() && Ordered() && objs == [] && h.log == [] && flash == map[] && h.live == map[]
      ensures this.crc == crc && this.lebSize == lebSize && this.minIo == minIo && this.maxIo == maxIo
      ensures this.lebCnt == lebCnt && this.nbReservedGc == nbReservedGc && this.nbReservedDel == nbReservedDel
      ensures super == 3 && superMounted == 0
      ensures sqnum == if Align(120, minIo) - 120 >= 24 then 4 else 3
      ensures usedLebs == NoneUsed(lebCnt) && nbFree == lebCnt && w.avail == 0 && sum.entries == []
      ensures fresh(ix) && fresh(ix.f) && fresh(sum)
    {
      hide Bytes, Layout, Index.Valid, Index.Contents, HistOk, BufOk, FreeOk, DataOk, InOrder, RestartOk, KnownLog,
           OpenBound, NoneUsed, Align, SumSize;
      NewStoreOk(crc, lebSize, minIo, lebCnt, Bytes(0, lebSize));
      this.crc, this.lebSize, this.minIo, this.maxIo, this.lebCnt := crc, lebSize, minIo, maxIo, lebCnt;
      this.nbReservedGc, this.nbReservedDel := nbReservedGc, nbReservedDel;
      ix := new Index();
      sum := new LS.Summary();
      flash, superMounted := map[], 0;
      w := WBuf(0, Bytes(0, lebSize), 0, 0, 0);
      usedLebs, nbFree := NoneUsed(lebCnt), lebCnt;
      h, objs := Hist(map[], map[], {}, [], []), [];
      super, sqnum := FIRST_SQNUM + 2, FIRST_SQNUM + 1;
      new;
      WriteSuper();
    }

    method NextSqnum() returns (sq: U64)
      requires sqnum + 1 < TWO64
      modifies this`sqnum
      ensures sq == sqnum == old(sqnum) + 1
    {
      sqnum := sqnum + 1;
      sq := sqnum;
    }

    /** Writes a super object; padding it to a page may take one more number. */
    method WriteSuper()
      requires minIo > 0 && sqnum + 2 < TWO64
      modifies this`super, this`sqnum
      ensures super == old(sqnum) + 1 && sqnum == old(sqnum) + SuperTakes(minIo)
      ensures sqnum == old(sqnum) + if Align(120, minIo) - 120 >= 24 then 2 else 1
    {
      super := NextSqnum();
      if Align(SUPER_SZ, minIo) - SUPER_SZ >= CH_SZ {
        var sq := NextSqnum();
      }
    }

    /** Copies `o` into the buffer, if it fits. */
    method WriteObj(o: seq<byte>) returns (ok: bool)
      requires w.used + w.avail <= |w.buf|
      modifies this`w
      ensures ok <==> |o| <= old(w.avail)
      ensures w == if ok then Put(old(w), o) else old(w)
    {
      if w.avail < |o| {
        return false;
      }
      w := w.(buf := w.buf[..w.used] + o + w.buf[w.used + |o|..], used := w.used + |o|, avail := w.avail - |o|);
      ok := true;
    }

    /** Pads with `n` bytes, as pad bytes or as a padding object. */
    method Pad(n: nat) returns (p: seq<byte>)
      requires n < TWO32 && n % OBJ_PADDING == 0 && n <= w.avail && w.used + w.avail <= |w.buf| && sqnum + 1 < TWO64
      modifies this`w, this`sqnum
      ensures sqnum == old(sqnum) + PadTakes(n) && p == PadOf(crc, n, old(sqnum) + 1)
      ensures |p| == n && IsPad(crc, p)
      ensures w == Put(old(w), p)
    {
      hide *;
      PadCases(crc, n, sqnum + 1);
      if n < CH_SZ {
        p := PadBytes(crc, n);
      } else {
        var sq := NextSqnum();
        p := MakePad(crc, n, sq);
      }
      var ok := WriteObj(p);
    }

    /** Writes the buffer to flash from where it is not there yet up to `p`. */
    method WriteFlash(p: nat)
      requires w.syncOffs <= p <= |w.buf| == lebSize && (w.lnum in flash ==> |flash[w.lnum]| == lebSize)
      modifies this`flash
      ensures flash == old(flash)[w.lnum := Flushed(old(flash), w.lnum, w.buf, p, w.syncOffs)]
    {
      hide Bytes;
      var leb := if w.lnum in flash then flash[w.lnum] else Bytes(0xff, lebSize);
      flash := flash[w.lnum := leb[..w.syncOffs] + w.buf[w.syncOffs..p] + leb[p..]];
    }

    /** Writes what is not yet on flash. */
    method Commit()
      requires minIo > 0 && w.syncOffs < w.used <= |w.buf| == lebSize
      requires (w.lnum in flash ==> |flash[w.lnum]| == lebSize)
      requires w.syncOffs % minIo == 0 && w.used % minIo == 0
      modifies this`flash, this`w
      ensures w == old(w).(syncOffs := old(w).used)
      ensures flash == old(flash)[w.lnum := Flushed(old(flash), w.lnum, w.buf, w.used, old(w).syncOffs)]
    {
      hide Flushed;
      WriteFlash(w.used);
      w := w.(syncOffs := w.used);
    }

    /** Pads to the next flash page. */
    method PreparePage() returns (ghost p: seq<byte>)
      requires Quiet() && w.avail > 0 && sqnum + 1 < TWO64
      requires Align(w.used, minIo) + SumSizeWithExtra(|sum.entries|, 1) + CH_SZ <= lebSize
      modifies this`w, this`sqnum
      ensures var n := Align(old(w.used), minIo) - old(w.used);
              p == PadOf(crc, n, old(sqnum) + 1) && sqnum == old(sqnum) + PadTakes(n)
      ensures IsPad(crc, p) && CanPad(lebSize, minIo, old(w), sum.entries, |p|) && |p| < old(w.avail)
      ensures old(w.used) + |p| == Align(old(w.used), minIo) <= |old(w.buf)| == lebSize && w == Put(old(w), p)
    {
      hide PadOf, SumOf, PadTakes, IsPad, HistOk, BufOk, Put, DataOk, FreeOk, SumSize, SumSizeWithExtra, Align, CanPad,
           KnownLog, OpenBound, SuperOk;
      PageRoom(lebSize, minIo, h, w, sum.entries);
      p := Pad(Align(w.used, minIo) - w.used);
    }

    /** Pads to the next flash page and commits; the erase-block stays open. */
    method SyncPage()
      requires Quiet() && w.avail > 0 && w.syncOffs < w.used && sqnum + 1 < TWO64
      requires Align(w.used, minIo) + SumSizeWithExtra(|sum.entries|, 1) + CH_SZ <= lebSize
      modifies this`w, this`flash, this`sqnum, this`h
      ensures Quiet() && h.log == old(h.log) && h.synced == h.log && AllSynced(h)
      ensures w.lnum == old(w.lnum) && w.used == w.syncOffs == Align(old(w.used), minIo) && w.avail > 0
      ensures Now() == AfterSync(Conf(), old(Now()), false)
    {
      hide PadOf, SumOf, PadTakes, IsPad, HistOk, BufOk, Put, Flushed, Padded, DataOk, FreeOk, SumSize,
           SumSizeWithExtra, Align, CanPad, OnDisk, AllSynced, Synced, Layout, KnownLog, OpenBound, Recs, CurOf, Used,
             SyncOffs, SumEntries, AfterSync;
      PageRoom(lebSize, minIo, h, w, sum.entries);
      FlashSize(crc, lebSize, flash, h, w.lnum);
      ghost var p := PreparePage();
      PageStep(crc, lebSize, minIo, flash, h, old(w), sum.entries, p);
      PutFields(old(w), p);
      ghost var b := Padded(h.live[w.lnum], p);
      SyncKeeps(h, w.lnum, b, false, objs, lebCnt, usedLebs, nbFree);
      Commit();
      SyncedLive(h, w.lnum, b, false);
      BoundKept(h, old(w), Synced(h, w.lnum, b, false), w, old(sqnum), sqnum);
      SyncedPage(Conf(), old(Now()), h, old(w), sum.entries, w);
      DataSize(h.live, h.log, objs);
      h := Synced(h, w.lnum, b, false);
    }

    /** Pads and writes the summary; the buffer is then full and the summary empty. */
    method WriteSummary() returns (ghost p: seq<byte>, ghost o: seq<byte>)
      requires w.avail >= SumSize(|sum.entries|) && (w.avail - SumSize(|sum.entries|)) % OBJ_PADDING == 0
      requires w.used + w.avail == |w.buf| < TWO32 && sqnum + 2 < TWO64
      modifies this`w, this`sqnum, sum
      ensures |p| + |o| == old(w.avail) && IsPad(crc, p) && IsSum(crc, o, old(sum.entries), old(w.used) + |p|)
      ensures w == Put(Put(old(w), p), o) && sum.entries == []
      ensures var n := old(w.avail) - SumSize(|old(sum.entries)|);
              && p == PadOf(crc, n, old(sqnum) + 1) && sqnum == old(sqnum) + PadTakes(n) + 1
              && o == SumOf(crc, old(sum.entries), old(w.used) + n, sqnum)
      ensures w.avail == 0 && w.used == |w.buf| == |old(w.buf)| && w.lnum == old(w.lnum)
      ensures w.syncOffs == old(w.syncOffs)
    {
      hide *;
      var len := SumSize(|sum.entries|);
      var pad := Pad(w.avail - len);
      PutFields(old(w), pad);
      var sq := NextSqnum();
      var summary := MakeSum(crc, sum.entries, w.used, sq);
      SumCases(crc, sum.entries, w.used, sq);
      PutFields(Put(old(w), pad), summary);
      var ok := WriteObj(summary);
      sum.entries := [];
      p, o := pad, summary;
    }

    /** Closes the erase-block with its summary and commits. */
    method SyncClose()
      requires Quiet() && w.avail > 0 && sqnum + 2 < TWO64
      modifies this`w, this`flash, this`sqnum, this`h, sum
      ensures Quiet() && h.log == old(h.log) && h.synced == h.log && AllSynced(h)
      ensures w.lnum == old(w.lnum) && w.avail == 0 && sum.entries == []
      ensures Now() == AfterSync(Conf(), old(Now()), true)
    {
      hide PadOf, SumOf, PadTakes, IsPad, IsSum, HistOk, BufOk, Put, Flushed, Finished, DataOk, FreeOk, SumSize,
           EntryOk, OnDisk, AllSynced, Synced, Layout, IoOk, KnownLog, Recs, CurOf, Used, SyncOffs, SumEntries,
             AfterSync;
      ghost var es := sum.entries;
      CloseRoom(crc, lebSize, minIo, flash, h, w, es, sqnum);
      FlashSize(crc, lebSize, flash, h, w.lnum);
      ghost var p, o := WriteSummary();
      CloseStep(crc, lebSize, minIo, flash, h, old(w), es, p, o);
      SyncedClose(Conf(), old(Now()), h, old(w), es);
      DataSize(h.live, h.log, objs);
      ghost var b := Finished(h.live[w.lnum], p, o);
      SyncKeeps(h, w.lnum, b, true, objs, lebCnt, usedLebs, nbFree);
      Commit();
      SyncedLive(h, w.lnum, b, true);
      ClosedCur(Synced(h, w.lnum, b, true), w);
      h := Synced(h, w.lnum, b, true);
    }

    /** Makes everything written so far persistent. */
    method Sync(force: bool)
      requires Quiet() && sqnum + 2 < TWO64
      modifies this`w, this`flash, this`sqnum, this`h, sum
      ensures Quiet() && h.log == old(h.log) && h.synced == h.log && AllSynced(h)
      ensures Now() == AfterSync(Conf(), old(Now()), force) && (force ==> w.avail == 0)
      ensures old(sqnum) <= sqnum <= old(sqnum) + 2
      ensures w.avail == 0 <==>
              || old(w.avail) == 0 || force
              || (old(w.syncOffs != w.used) && MustClose(old(w.used), minIo, old(|sum.entries|), lebSize))
      ensures forall i :: 0 <= i < |objs| ==> OnFlashAt(flash, h.log[i], objs[i])
    {
      hide MustClose, Layout, HistOk, DataOk, FreeOk, SumSizeWithExtra, StoredAt, OnFlashAt, KnownLog, OpenBound, Align,
           SuperOk, Used, SyncOffs, SumEntries, PadOf, SumOf, PadTakes;
      CurIs(Conf(), h, w, sum.entries);
      MustCloseIs(w.used, minIo, |sum.entries|, lebSize);
      if (w.syncOffs != w.used || force) && w.avail != 0 {
        if force || Align(w.used, minIo) + SumSizeWithExtra(|sum.entries|, 1) + CH_SZ > lebSize {
          ForcedSame(Conf(), Here(), force, sqnum);
          SyncClose();
        } else {
          SyncPage();
        }
      } else {
        NothingToSync(lebSize, minIo, h, w, sum.entries);
        DataSize(h.live, h.log, objs);
      }
      SyncedOnFlash(crc, lebSize, flash, h, objs);
    }

    /** Takes the first unused erase-block, unless too few are left for this kind of operation. */
    method AllocEb(del: bool) returns (ok: bool)
      requires |usedLebs| == lebCnt
      modifies this`w, this`usedLebs, this`nbFree
      ensures w == old(w).(lnum := w.lnum)
      ensures ok <==> CanAlloc(old(usedLebs), old(nbFree), nbReservedGc, nbReservedDel, del)
      ensures ok ==> w.lnum == FirstUnused(old(usedLebs), LOG_FST_LNUM)
      ensures ok ==> Space(usedLebs, nbFree) == Taken(old(Space(usedLebs, nbFree)))
      ensures !ok ==> w.lnum == 0 && usedLebs == old(usedLebs) && nbFree == old(nbFree)
      ensures ok <==> (exists l :: 3 <= l < lebCnt && !old(usedLebs)[l])
                      && old(nbFree) >= nbReservedGc + if del then 0 else nbReservedDel
      ensures ok ==> 3 <= w.lnum < lebCnt && !old(usedLebs)[w.lnum] && forall l :: 3 <= l < w.lnum ==> old(usedLebs)[l]
      ensures ok ==> usedLebs == old(usedLebs)[w.lnum := true] && nbFree == old(nbFree) - 1
    {
      hide FirstUnused;
      CanAllocIff(usedLebs, nbFree, nbReservedGc, nbReservedDel, del);
      FirstUnusedIs(usedLebs, 3);
      w := w.(lnum := 0);
      if nbFree < nbReservedGc || (nbFree < nbReservedDel + nbReservedGc && !del) {
        return false;
      }
      var i := LOG_FST_LNUM;
      while i < lebCnt
        invariant i >= LOG_FST_LNUM && forall k :: LOG_FST_LNUM <= k < i && k < lebCnt ==> usedLebs[k]
      {
        if !usedLebs[i] {
          usedLebs, nbFree := usedLebs[i := true], nbFree - 1;
          w := w.(lnum := i);
          return true;
        }
        i := i + 1;
      }
      ok := false;
    }

    /** Goes on with a new erase-block. */
    method NewLeb(del: bool) returns (ok: bool)
      requires Quiet() && w.avail == 0
      modifies this`w, this`usedLebs, this`nbFree, this`h
      ensures Quiet() && h.log == old(h.log) == h.synced
      ensures ok <==> HasBlock(Conf(), old(Space(usedLebs, nbFree)), del)
      ensures Now() == if ok then NewBlock(old(Now())) else old(Now())
      ensures ok ==> w.avail == lebSize > 0 && sum.entries == []
      ensures forall q :: OpenBound(h, w, q)
      ensures !ok ==> w.avail == 0
    {
      hide HistOk, BufOk, FreeOk, DataOk, EnoughFree, FirstUnused, KnownLog, Recs, SumSize;
      SyncedWhenClosed(lebSize, minIo, h, w, sum.entries);
      NewLebStep(crc, lebSize, minIo, flash, h, w, sum.entries, objs, lebCnt, usedLebs, nbFree);
      NewBlockOf(lebSize, minIo, h, w, sum.entries, lebCnt, usedLebs, nbFree);
      ok := AllocEb(del);
      if ok {
        w := w.(used := 0, syncOffs := 0, avail := lebSize);
        h := Opened(h, w.lnum);
      } else {
        ClosedBound(h, w);
      }
    }

    /** Makes sure that some erase-block is open. */
    method EnsureOpen(del: bool) returns (ok: bool)
      requires Quiet()
      modifies this`w, this`usedLebs, this`nbFree, this`h
      ensures Quiet() && h.log == old(h.log) && h.synced == old(h.synced)
      ensures forall q :: old(OpenBound(h, w, q)) ==> OpenBound(h, w, q)
      ensures (ok <==> w.avail > 0) && (ok ==> Here().Open?)
      ensures ok <==> old(w.avail) > 0 || HasBlock(Conf(), old(Space(usedLebs, nbFree)), del)
      ensures Now() == if old(w.avail) > 0 || !ok then old(Now()) else NewBlock(old(Now()))
      ensures if old(w.avail) > 0 then w == old(w) else ok ==> w.avail == lebSize && sum.entries == []
    {
      hide HistOk, FreeOk, DataOk, EnoughFree, FirstUnused, Layout, KnownLog, OpenBound, SumSize, OpenOk;
      ok := true;
      if w.lnum == 0 || w.avail == 0 {
        ok := NewLeb(del);
      }
    }

    /** Makes room for `serial` bytes and the summary with `count` more entries. */
    method MakeRoom(serial: nat, count: nat, del: bool) returns (ok: bool)
      requires Quiet() && w.avail > 0 && Here().Open? && sqnum + 2 < TWO64 && serial + SumSize(count) <= lebSize
      modifies this`w, this`flash, this`usedLebs, this`nbFree, this`h, this`sqnum, sum
      ensures Quiet() && h.log == old(h.log)
      ensures forall q :: old(OpenBound(h, w, q)) ==> OpenBound(h, w, q)
      ensures ok ==> w.avail >= serial + SumSize(|sum.entries| + count)
      ensures h.synced == if old(w.avail >= serial + SumSizeWithExtra(|sum.entries|, count)) then old(h.synced)
              else h.log
      ensures (Now(), ok) == AfterRoom(Conf(), old(Now()), serial, count, del)
      ensures (ok <==> w.avail > 0) && old(sqnum) <= sqnum <= old(sqnum) + 2
    {
      hide HistOk, FreeOk, DataOk, EnoughFree, FirstUnused, Layout, SumSize, SumSizeWithExtra, OnFlashAt, AllSynced,
           OpenBound, KnownLog, CanAlloc, Taken, OpenOk, Used, SyncOffs, SumEntries, Avail, AfterSync, NewBlock;
      ReservedIsEnough(|sum.entries|, count);
      CurIs(Conf(), h, w, sum.entries);
      ok := true;
      if w.avail < serial + SumSizeWithExtra(|sum.entries|, count) {
        Sync(true);
        ClosedSum(lebSize, minIo, h, w, sum.entries);
        ok := NewLeb(del);
      }
    }

    /** Fills in the headers of a transaction. */
    method StampAll(os: seq<seq<byte>>) returns (ps: seq<seq<byte>>)
      requires CanPack(os, sqnum)
      modifies this`sqnum
      ensures TransOk(crc, ps, old(sqnum)) && sqnum == old(sqnum) + |os| && Stamps(os, ps)
      ensures ps == PackAll(crc, os, old(sqnum))
    {
      hide *;
      ps := [];
      StampedNone(crc, os, sqnum);
      PackedNone(crc, os, sqnum);
      for i := 0 to |os|
        invariant |ps| == i && sqnum == old(sqnum) + i
        invariant StampedSoFar(crc, os, ps, old(sqnum)) && ps == PackAll(crc, os, old(sqnum))[..i]
      {
        CanPackAt(os, old(sqnum), i);
        var sq := NextSqnum();
        var p := PackObj(crc, os[i], sq, T.GetObjTrans(|os|, i));
        StampedMore(crc, os, ps, old(sqnum), p);
        PackedMore(crc, os, old(sqnum), i);
        ps := ps + [p];
      }
      AllStamped(crc, os, ps, old(sqnum));
    }

    /** Copies a transaction into the buffer. */
    method WriteAll(ps: seq<seq<byte>>)
      requires w.used + w.avail <= |w.buf| && |Concat(ps)| <= w.avail
      modifies this`w
      ensures w == Put(old(w), Concat(ps))
    {
      hide Put, Concat;
      PutNothing(w);
      for i := 0 to |ps|
        invariant |Concat(ps[..i])| <= |Concat(ps)| && w == Put(old(w), Concat(ps[..i]))
      {
        ConcatNext(ps, i);
        PutFields(old(w), Concat(ps[..i]));
        PutTwice(old(w), Concat(ps[..i]), ps[i]);
        var ok := WriteObj(ps[i]);
      }
      assert ps[..|ps|] == ps;
    }

    /** Indexes the objects of a transaction and records them in the summary. */
    method IndexAll(ps: seq<seq<byte>>, at: nat, ghost log: seq<Rec>, ghost base: seq<Rec>, ghost sq: nat)
      requires ix.Valid() && Sound(ix.Contents()) && ix.Contents() == Replay(map[], log)
      requires sum.entries == LS.SumAll(base)
      requires TransOk(crc, ps, sq)
      modifies ix, ix.f, sum
      ensures ix.Valid() && Sound(ix.Contents()) && ix.Contents() == Replay(map[], log + RecsOf(w.lnum, Locate(ps, at)))
      ensures sum.entries == LS.SumAll(base + RecsOf(w.lnum, Locate(ps, at)))
    {
      hide Processed, LS.Recorded, Sound, Replay, LS.SumAll, LS.Record, Apply, RecsOf, Locate, Concat, Index.Valid,
           Index.Contents, IndexedType, StampedAs;
      RecsStart(w.lnum, at, log, base);
      var offs := at;
      for i := 0 to |ps|
        invariant offs == at + |Concat(ps[..i])|
        invariant ix.Valid() && Sound(ix.Contents())
        invariant ix.Contents() == Replay(map[], log + RecsOf(w.lnum, Locate(ps[..i], at)))
        invariant sum.entries == LS.SumAll(base + RecsOf(w.lnum, Locate(ps[..i], at)))
      {
        assert Numbered(ps[i], sq + 1 + i);
        var a := Addr(w.lnum, offs, |ps[i]|, SqnumOf(ps[i]));
        var r := if TypeOf(ps[i]) == DEL_TYPE then Del(IdOf(ps[i]), a) else Obj(IdOf(ps[i]), a);
        RecsNext(w.lnum, ps, i, at, log, base);
        ProcessObj(ix, r);
        sum.SumObj(r);
        offs := offs + |ps[i]|;
      }
      assert ps[..|ps|] == ps;
    }

    /** Writes a stamped transaction for which there is room. */
    method WriteTrans(ps: seq<seq<byte>>, ghost sq: nat)
      requires Valid() && T.Proper(ps) && w.avail >= |Concat(ps)| + SumSize(|sum.entries| + |ps|)
      requires TransOk(crc, ps, sq) && OpenBound(h, w, sq) && sq + |ps| <= sqnum && superMounted + 1 < sqnum
      modifies this`w, this`h, this`objs, sum, ix, ix.f
      ensures Valid() && objs == old(objs) + ps && h.synced == old(h.synced)
      ensures h.log == old(h.log) + RecsOf(w.lnum, Locate(ps, old(w.used))) && |h.log| == |old(h.log)| + |ps|
      ensures old(InOrder(h.log) && RestartOk(sq, h.log)) ==> Ordered()
      ensures Now() == AddObjs(old(Now()), ps)
    {
      hide HistOk, BufOk, FreeOk, DataOk, Layout, SumSize, Concat, Index.Valid, Index.Contents, Replay, Sound, TransOk,
           Put, IoOk, LS.SumAll, Recs, RecsOf, Locate, AddTrans, KnownLog, OpenBound, InOrder, RestartOk;
      SummaryRoom(lebSize, minIo, h, w, sum.entries);
      WriteRoom(crc, ps, sq, w.lnum, w.used, Recs(w.lnum, h.live[w.lnum]));
      PutFields(w, Concat(ps));
      WroteFree(lebCnt, usedLebs, nbFree, h, w.lnum, ps, w.used);
      if InOrder(h.log) && RestartOk(sq, h.log) {
        OpenFacts(lebSize, minIo, h, w, sum.entries, sq);
        WroteOrdered(crc, h, w.lnum, ps, w.used, sq, sqnum);
      }
      TransCount(crc, w.lnum, ps, w.used, sq);
      var offs := w.used;
      WriteAll(ps);
      IndexAll(ps, offs, h.log, Recs(w.lnum, h.live[w.lnum]), sq);
      WriteStep(crc, lebSize, minIo, flash, h, old(w), old(sum.entries), sum.entries, sq, sqnum, objs, ps);
      h, objs := Wrote(h, w.lnum, ps, offs), objs + ps;
    }

    /** Writes a transaction while an erase-block is open. */
    method WriteOpen(os: seq<seq<byte>>, del: bool) returns (ok: bool, ps: seq<seq<byte>>)
      requires Valid() && w.avail > 0 && Here().Open? && T.Proper(os) && CanPack(os, sqnum + 2)
      requires |Concat(os)| + SumSize(|os|) <= lebSize
      modifies this`w, this`flash, this`usedLebs, this`nbFree, this`h, this`sqnum, this`objs, sum, ix, ix.f
      ensures Valid() && (old(Ordered()) ==> Ordered())
      ensures WrittenOpen(Conf(), old(Now()), os, del, Now(), ok)
      ensures h.synced == if old(w.avail >= |Concat(os)| + SumSizeWithExtra(|sum.entries|, |os|)) then old(h.synced)
                          else old(h.log)
      ensures ok ==> IsPacked(crc, os, ps, old(sqnum))
      ensures Grew(old(h.log), h.log, old(objs), objs, if ok then ps else [])
      ensures old(sqnum) <= sqnum <= old(sqnum) + |os| + 2 && (ok ==> sqnum >= old(sqnum) + |os|)
      ensures if w.avail > 0 then w.avail >= SumSize(|sum.entries|) else sum.entries == []
    {
      hide HistOk, BufOk, FreeOk, DataOk, Layout, SumSize, Concat, Index.Valid, Index.Contents, Replay, Sound, TransOk,
           Writable, CanAlloc, IoOk, KnownLog, OpenBound, InOrder, RestartOk, RecsOf, Locate, Put, Taken,
             SumSizeWithExtra, LS.SumAll, Recs, AfterRoom, AddObjs, PackAll;
      ps := [];
      var packed := StampAll(os);
      SameSerial(os, packed);
      BoundLater(h, w, old(sqnum), sqnum);
      var serial := SerialSize(packed);
      ok := MakeRoom(serial, |os|, del);
      if ok {
        WriteTrans(packed, old(sqnum));
        ps := packed;
      } else {
        LaterRestart(h.log, old(sqnum), sqnum);
      }
      SummaryRoom(lebSize, minIo, h, w, sum.entries);
    }

    /** Writes the objects `os` as one transaction. They follow everything written before; if there is
        no space, nothing is written. */
    method WriteObjList(os: seq<seq<byte>>, del: bool) returns (ok: bool, ps: seq<seq<byte>>)
      requires Valid() && T.Proper(os) && CanPack(os, sqnum + 2) && |Concat(os)| + SumSize(|os|) <= lebSize
      modifies this`w, this`flash, this`usedLebs, this`nbFree, this`h, this`sqnum, this`objs, sum, ix, ix.f
      ensures Valid() && (old(Ordered()) ==> Ordered())
      ensures Written(Conf(), old(Now()), os, del, Now(), ok)
      ensures var fits := old(w.avail > 0 && w.avail >= |Concat(os)| + SumSizeWithExtra(|sum.entries|, |os|));
              var fitsEmpty := lebSize >= |Concat(os)| + SumSizeWithExtra(0, |os|);
              && (ok, Space(usedLebs, nbFree)) ==
                 WriteSpace(old(Space(usedLebs, nbFree)), old(w.avail) > 0, fits, fitsEmpty, nbReservedGc,
                            nbReservedDel, del)
              && h.synced == if fits then old(h.synced) else old(h.log)
      ensures RoomTold(old(nbFree), old(w.avail), old(|sum.entries|), |os|, |Concat(os)|, lebSize, nbReservedGc,
                       nbReservedDel, del, ok, nbFree)
      ensures ok ==> IsPacked(crc, os, ps, old(sqnum))
      ensures Grew(old(h.log), h.log, old(objs), objs, if ok then ps else [])
      ensures old(sqnum) <= sqnum <= old(sqnum) + |os| + 2 && (ok ==> sqnum >= old(sqnum) + |os|)
      ensures if w.avail > 0 then w.avail >= SumSize(|sum.entries|) else sum.entries == []
    {
      hide HistOk, BufOk, FreeOk, DataOk, Layout, SumSize, Concat, Index.Valid, Index.Contents, Replay, Sound, TransOk,
           Writable, CanAlloc, IoOk, KnownLog, OpenBound, InOrder, RestartOk, RecsOf, Locate, Put, Taken,
             SumSizeWithExtra, LS.SumAll, Recs, AfterWriteOpen, PackAll, WriteSpace, IsPacked, Counted, RoomTold;
      ps := [];
      SyncedWhenClosed(lebSize, minIo, h, w, sum.entries);
      CurIs(Conf(), h, w, sum.entries);
      FreeCounted(lebCnt, usedLebs, nbFree, h.live);
      WriteSpaceArith(Space(usedLebs, nbFree), w.avail, |sum.entries|, |os|, |Concat(os)|, lebSize, nbReservedGc,
                      nbReservedDel, del);
      WriteSpaceOf(Conf(), Now(), os, del);
      ok := EnsureOpen(del);
      if ok {
        ok, ps := WriteOpen(os, del);
      } else {
        SummaryRoom(lebSize, minIo, h, w, sum.entries);
      }
    }

    /** Reads the object `id` into a buffer of `len` bytes: the one the index holds, which is the one
        written last unless it has been deleted since. */
    method ReadObj(id: ObjId, len: nat) returns (r: ReadResult)
      requires Valid()
      ensures |objs| == |h.log| && (r.NotFound? <==> id !in Replay(map[], h.log))
      ensures forall i :: 0 <= i < |h.log| ==>
                (id in Replay(map[], h.log) && h.log[i] == Obj(id, Replay(map[], h.log)[id])) ==>
                  r == if len < |objs[i]| then TooSmall else Got(objs[i])
      ensures Ordered() ==> r == Lookup(objs, id, len)
    {
      hide HistOk, BufOk, FreeOk, Layout, SumSize, Index.Valid, Index.Contents, Replay, Sound, IoOk, InOrder, StoredAt,
           OnFlashAt, KnownLog, OpenBound, RestartOk, Lookup, SuperOk, Matches;
      DataMatches(h.live, h.log, objs);
      var found, a := ix.GetObjAddr(id);
      if !found {
        if InOrder(h.log) { OrderedLookup(h.log, objs, id, len, 0); }
        return NotFound;
      }
      ghost var i := ReplaySource(h.log, id);
      if InOrder(h.log) { OrderedLookup(h.log, objs, id, len, i); }
      assert StoredAt(h.live, h.log[i], objs[i]);
      SameBytes(h.live, h.log, objs, i);
      StoredFacts(crc, lebSize, minIo, flash, h, w, sum.entries, h.log[i], objs[i], lebCnt, usedLebs, nbFree);
      if len < a.len {
        return TooSmall;
      }
      var o := Fetch(a, h.log[i], objs[i]);
      return Got(o);
    }

    /** Reads the bytes at an address, from the buffer or from flash. */
    method Fetch(a: Addr, ghost r: Rec, ghost o: seq<byte>) returns (bytes: seq<byte>)
      requires Quiet() && StoredAt(h.live, r, o) && r.addr == a
      ensures bytes == o
    {
      hide HistOk, BufOk, FreeOk, DataOk, IoOk, StoredAt, KnownLog, OpenBound, SuperOk;
      StoredFacts(crc, lebSize, minIo, flash, h, w, sum.entries, r, o, lebCnt, usedLebs, nbFree);
      if a.lnum == w.lnum {
        return w.buf[a.offs..a.offs + a.len];
      }
      var rbuf, at := ReadPages(flash[a.lnum], minIo, maxIo, a.offs, a.len);
      return rbuf[at..at + a.len];
    }

    /** Pads to the next page; power is lost when the pages up to `p` are on flash. */
    method CutPage(p: nat) returns (through: bool, seen: bool, ghost b: Leb)
      requires Quiet() && w.avail > 0 && w.syncOffs < w.used && sqnum + 1 < TWO64
      requires Align(w.used, minIo) + SumSizeWithExtra(|sum.entries|, 1) + CH_SZ <= lebSize
      requires CutPlace(lebSize, minIo, w.syncOffs, p, Align(w.used, minIo))
      modifies this`w, this`flash, this`sqnum, this`h
      ensures w.lnum == old(w.lnum) && Cut(crc, lebSize, lebCnt, objs, old(h), flash, h, w.lnum, b, p)
      ensures old(Here()).Open? && b == SyncLeb(Conf(), old(Here()), false, old(sqnum))
      ensures (through <==> Straddles(b, p)) && (seen <==> CutsSeen(crc, b, p))
    {
      hide PadOf, SumOf, PadTakes, IsPad, HistOk, BufOk, Put, Flushed, Padded, DataOk, FreeOk, SumSize,
           SumSizeWithExtra, Align, CanPad, OnDisk, Ready, Layout, KnownLog, OpenBound, Recs, MediumOk, SuperOk,
             FlashSane, FlashReadable, Cut, AfterCut, Straddles, CutsSeen;
      AlwaysMountable(this);
      PageRoom(lebSize, minIo, h, w, sum.entries);
      FlashSize(crc, lebSize, flash, h, w.lnum);
      ghost var pad := PreparePage();
      PutFields(old(w), pad);
      b := Padded(h.live[w.lnum], pad);
      SyncedPage(Conf(), old(Now()), h, old(w), sum.entries, w);
      PageReady(crc, lebSize, minIo, flash, h, old(w), sum.entries, pad);
      CutOutcome(crc, lebSize, minIo, lebCnt, flash, h, objs, w.lnum, b, w.buf, p, w.syncOffs);
      ReadyBytes(crc, lebSize, h, w.lnum, b, w.buf, w.syncOffs);
      through, seen := CheckCut(crc, w.buf[..w.used], p, b);
      WriteFlash(p);
      h := AfterCut(h, w.lnum, b, p);
    }

    /** Pads and writes the summary; power is lost when the pages up to `p` are on flash. */
    method CutClose(p: nat) returns (through: bool, seen: bool, ghost b: Leb)
      requires Quiet() && w.avail > 0 && sqnum + 2 < TWO64 && CutPlace(lebSize, minIo, w.syncOffs, p, lebSize)
      modifies this`w, this`flash, this`sqnum, this`h, sum
      ensures w.lnum == old(w.lnum) && Cut(crc, lebSize, lebCnt, objs, old(h), flash, h, w.lnum, b, p)
      ensures old(Here()).Open? && b == SyncLeb(Conf(), old(Here()), true, old(sqnum))
      ensures (through <==> Straddles(b, p)) && (seen <==> CutsSeen(crc, b, p))
    {
      hide PadOf, SumOf, PadTakes, IsPad, IsSum, HistOk, BufOk, Put, Flushed, Finished, DataOk, FreeOk, SumSize,
           EntryOk, OnDisk, Ready, Layout, IoOk, KnownLog, Recs, MediumOk, SuperOk, FlashSane, FlashReadable, Cut,
             AfterCut, Straddles, CutsSeen;
      AlwaysMountable(this);
      ghost var es := sum.entries;
      CloseRoom(crc, lebSize, minIo, flash, h, w, es, sqnum);
      FlashSize(crc, lebSize, flash, h, w.lnum);
      ghost var pad, o := WriteSummary();
      b := Finished(h.live[w.lnum], pad, o);
      SyncedClose(Conf(), old(Now()), h, old(w), es);
      CloseReady(crc, lebSize, minIo, flash, h, old(w), es, pad, o);
      CutOutcome(crc, lebSize, minIo, lebCnt, flash, h, objs, w.lnum, b, w.buf, p, w.syncOffs);
      ReadyBytes(crc, lebSize, h, w.lnum, b, w.buf, w.syncOffs);
      through, seen := CheckCut(crc, w.buf[..w.used], p, b);
      WriteFlash(p);
      h := AfterCut(h, w.lnum, b, p);
    }

    /** Power is lost during a sync, when `pages` pages of it are on flash. */
    method CutSync(force: bool, pages: nat) returns (torn: bool, through: bool, seen: bool, p: nat, ghost b: Leb)
      requires Quiet() && sqnum + 2 < TWO64
      modifies this`w, this`flash, this`sqnum, this`h, sum
      ensures p == old(w.syncOffs) + pages * minIo && h.log == old(h.log)
      ensures torn <==> Writes(old(Here()), force) && pages > 0 && p < SyncEnd(Conf(), old(Here()), force)
      ensures !torn ==> Quiet() && Now() == if Writes(old(Here()), force) && pages > 0
                                            then AfterSync(Conf(), old(Now()), force) else old(Now())
      ensures torn ==> w.lnum == old(w.lnum) && Cut(crc, lebSize, lebCnt, objs, old(h), flash, h, w.lnum, b, p)
      ensures torn ==> b == SyncLeb(Conf(), old(Here()), force, old(sqnum))
      ensures torn ==> (through <==> Straddles(b, p)) && (seen <==> CutsSeen(crc, b, p))
    {
      hide Used, SyncOffs, SumEntries, AfterSync, SyncLeb, PadOf, SumOf, PadTakes, HistOk, BufOk, DataOk, FreeOk,
           SumSize, SumSizeWithExtra, Align, Layout, KnownLog, MediumOk, SuperOk, FlashSane, FlashReadable, Cut,
             Straddles, CutsSeen, AllSynced, OnFlashAt, CutPlace, OpenBound, IoOk;
      AlwaysMountable(this);
      OpenPages(lebSize, minIo, h, w, sum.entries);
      CurIs(Conf(), h, w, sum.entries);
      p := w.syncOffs + pages * minIo;
      b := EMPTY_LEB;
      torn, through, seen := false, false, false;
      if (w.syncOffs != w.used || force) && w.avail != 0 && pages > 0 {
        var closes := force || Align(w.used, minIo) + SumSizeWithExtra(|sum.entries|, 1) + CH_SZ > lebSize;
        var end := if closes then lebSize else Align(w.used, minIo);
        if p < end {
          torn := true;
          PlaceOk(lebSize, minIo, w.syncOffs, pages, end);
          if closes {
            ForcedSame(Conf(), Here(), force, sqnum);
            through, seen, b := CutClose(p);
          } else {
            through, seen, b := CutPage(p);
          }
          CutSame(crc, lebSize, lebCnt, objs, old(h), flash, h, w.lnum, b, p);
        } else {
          Sync(force);
        }
      }
    }

    /** Unmounts: if any number has been handed out since mounting, everything is synchronised and a new
        super object written. */
    method Unmount()
      requires Quiet() && sqnum + 4 < TWO64
      modifies this`w, this`flash, this`sqnum, this`h, this`super, sum
      ensures Quiet() && h.log == old(h.log) && h.synced == h.log && sqnum <= old(sqnum) + 4
      ensures old(super) <= super && (old(Ordered()) ==> RestartOk(RestartNumber(super), h.synced))
      ensures Now() == AfterUnmount(Conf(), old(Now()))
      ensures if old(sqnum) <= superMounted + 1 then super == old(super) && sqnum == old(sqnum) && flash == old(flash)
              else w.avail == 0 && old(sqnum) < super && sqnum == super + if Align(120, minIo) - 120 >= 24 then 1 else 0
    {
      hide HistOk, BufOk, FreeOk, DataOk, Layout, IoOk, KnownLog, OpenBound, InOrder, AllSynced, OnFlashAt;
      if superMounted + 1 < sqnum {
        Sync(true);
        ghost var sq := sqnum;
        WriteSuper();
        BoundLater(h, w, sq, sqnum);
      }
    }
  }

  /** In every state of a run, what is on flash can be mounted again. */
  lemma AlwaysMountable(s: Store)
    requires s.Quiet()
    ensures MediumOk(s.crc, s.lebSize, s.lebCnt, s.flash, s.h, s.objs) && KnownLog(s.h.synced)
    ensures FlashSane(s.crc, s.lebSize, s.lebCnt, s.flash) && FlashReadable(s.crc, s.flash)
  {
    hide HistOk, DataOk, Layout, FlashSane, FlashReadable, Grown, KnownLog, OpenBound;
    BufGrown(s.crc, s.lebSize, s.minIo, s.flash, s.h, s.w, s.sum.entries);
    KnownPart(s.crc, s.lebSize, s.flash, s.h);
    MediumReadable(s.crc, s.lebSize, s.lebCnt, s.flash, s.h, s.objs);
  }

  lemma OpenPages(size: nat, minIo: nat, h: Hist, w: WBuf, es: seq<LS.SumEntry>)
    requires IoOk(size, minIo) && BufOk(size, minIo, h, w, es)
    ensures size % minIo == 0 && (w.avail > 0 ==> w.syncOffs % minIo == 0 && w.syncOffs <= w.used)
  {
    hide Layout, TailOk, Extends, Recs;
  }

  lemma CutSame(crc: Crc, size: nat, lebCnt: nat, objs: seq<seq<byte>>, h0: Hist, flash: Flash, h: Hist, l: nat, b: Leb,
                p: nat)
    requires Cut(crc, size, lebCnt, objs, h0, flash, h, l, b, p)
    ensures h.log == h0.log
  {
    hide MediumOk, Recs, Extends, Straddles, CutLeb, CutsSeen;
  }

  lemma ReadyBytes(crc: Crc, size: nat, h: Hist, l: nat, b: Leb, buf: seq<byte>, syncOffs: nat)
    requires Ready(crc, size, h, l, b, buf, syncOffs)
    ensures LebOk(crc, b) && |Layout(b.items)| <= |buf| && buf[..|Layout(b.items)|] == Layout(b.items)
  {
    hide Layout, Recs, LebOk, TailOk, Extends;
  }

  lemma PlaceOk(size: nat, minIo: nat, syncOffs: nat, pages: nat, end: nat)
    requires IoOk(size, minIo) && syncOffs % minIo == 0 && end <= size && end % minIo == 0
    requires syncOffs + pages * minIo < end
    ensures CutPlace(size, minIo, syncOffs, syncOffs + pages * minIo, end)
  {
    var p := syncOffs + pages * minIo;
    MorePages(syncOffs, pages, minIo);
    PageApart(p, end, minIo);
    PageMultiple(p, minIo);
    assert pages * minIo >= 0;
    AtLeastEight(minIo);
  }

  lemma AtLeastEight(minIo: nat)
    requires minIo > 0 && minIo % OBJ_PADDING == 0
    ensures minIo >= 8
  {
  }

  lemma ClosedBound(h: Hist, w: WBuf)
    requires w.avail == 0
    ensures forall q :: OpenBound(h, w, q)
  {
  }

  /** The objects `ps` were added, and as many records. */
  ghost predicate Grew(log: seq<Rec>, log': seq<Rec>, objs: seq<seq<byte>>, objs': seq<seq<byte>>, ps: seq<seq<byte>>) {
    log <= log' && |log'| == |log| + |ps| && objs' == objs + ps
  }

  lemma NewStoreOk(crc: Crc, size: nat, minIo: nat, lebCnt: nat, buf: seq<byte>)
    requires IoOk(size, minIo) && |buf| == size
    ensures var h, w := Hist(map[], map[], {}, [], []), WBuf(0, buf, 0, 0, 0);
            && HistOk(crc, size, map[], h) && BufOk(size, minIo, h, w, []) && DataOk(h.live, [], [])
            && FreeOk(lebCnt, NoneUsed(lebCnt), lebCnt, h.live) && InOrder([]) && KnownLog([])
            && forall n: nat :: OpenBound(h, w, n) && RestartOk(n, [])
  {
    hide Layout, LebOk;
  }

  lemma ClosedCur(h: Hist, w: WBuf)
    requires w.avail == 0
    ensures CurOf(h, w) == Closed
  {
  }

  lemma DataSize(live: Lebs, log: seq<Rec>, objs: seq<seq<byte>>)
    requires DataOk(live, log, objs)
    ensures |log| == |objs|
  {
  }

  lemma SyncedLive(h: Hist, l: nat, b: Leb, close: bool)
    ensures l in Synced(h, l, b, close).live && Synced(h, l, b, close).live[l] == b
  {
  }

  lemma OpenFacts(size: nat, minIo: nat, h: Hist, w: WBuf, es: seq<LS.SumEntry>, sq: nat)
    requires minIo > 0 && BufOk(size, minIo, h, w, es) && w.avail > 0 && OpenBound(h, w, sq)
    ensures w.lnum in h.live && TailOk(h, w.lnum) && forall r :: r in Recs(w.lnum, h.live[w.lnum]) ==>
              r.addr.sqnum <= sq
  {
    hide Layout, Recs, TailOk, LS.SumAll;
  }

  lemma TransCount(crc: Crc, l: nat, ps: seq<seq<byte>>, at: nat, sq: nat)
    requires TransOk(crc, ps, sq)
    ensures |RecsOf(l, Locate(ps, at))| == |ps|
  {
    hide RecsOf, Locate, StampedAs, RecAt, Concat;
    assert forall i :: 0 <= i < |ps| ==> Numbered(ps[i], sq + 1 + i) && HasId(ps[i]);
    TransRecs(l, ps, at);
  }

  lemma SyncedWhenClosed(size: nat, minIo: nat, h: Hist, w: WBuf, es: seq<LS.SumEntry>)
    requires minIo > 0 && BufOk(size, minIo, h, w, es)
    ensures w.avail == 0 ==> h.synced == h.log && es == []
  {
    hide Layout, OpenOk;
  }

  lemma LaterRestart(log: seq<Rec>, n: nat, n': nat)
    requires n <= n'
    ensures RestartOk(n, log) ==> RestartOk(n', log)
  {
  }

  /** Equal records stand for equal objects. */
  lemma SameBytes(live: Lebs, log: seq<Rec>, objs: seq<seq<byte>>, i: nat)
    requires DataOk(live, log, objs) && i < |log|
    ensures forall k :: 0 <= k < |log| && log[k] == log[i] ==> objs[k] == objs[i]
  {
    hide Layout, HasId;
    assert StoredAt(live, log[i], objs[i]);
    forall k | 0 <= k < |log| && log[k] == log[i] ensures objs[k] == objs[i] {
      assert StoredAt(live, log[k], objs[k]);
    }
  }
}
