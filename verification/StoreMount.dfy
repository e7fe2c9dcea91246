/** Mounting: what is left on flash after a crash, and the scan that rebuilds the index. */
module StoreMount {
  import opened LogIndex
  import LS = LogSummary
  import opened ObjFormat
  import opened SumFormat
  import opened LebModel
  import opened StoreModel
  import opened StoreSteps
  import opened StoreWrite
  import opened ObjIndex
  import opened ProcObj
  import T = Transactions

  const LOG_FST_LNUM: nat := 3

  /** What is on flash is the beginning of what was written. */
  ghost predicate Grown(h: Hist) {
    forall l :: l in h.disk ==> l in h.live && Layout(h.disk[l].items) <= Layout(h.live[l].items)
  }

  /** The state of the medium, with the history that led to it. */
  ghost predicate MediumOk(crc: Crc, size: nat, lebCnt: nat, flash: Flash, h: Hist, objs: seq<seq<byte>>) {
    && HistOk(crc, size, flash, h) && DataOk(h.live, h.log, objs) && Grown(h)
    && forall l :: l in h.live ==> LOG_FST_LNUM <= l < lebCnt
  }

  /** The history that is left when everything not on flash is lost. */
  function Crashed(h: Hist): Hist {
    Hist(h.disk, h.disk, h.closed, h.synced, h.synced)
  }

  lemma CrashedHist(crc: Crc, size: nat, flash: Flash, h: Hist)
    requires HistOk(crc, size, flash, h)
    ensures HistOk(crc, size, flash, Crashed(h))
  {
    hide Fits, OnFlash, SummaryOk;
    forall l | l in h.disk ensures Fits(crc, size, l, h.disk[l]) {
      TheDisk(crc, size, flash, h, l);
    }
  }

  /** A record on flash stands for the same object there. */
  lemma StoredOnDisk(crc: Crc, size: nat, flash: Flash, h: Hist, r: Rec, o: seq<byte>)
    requires HistOk(crc, size, flash, h) && Grown(h) && StoredAt(h.live, r, o) && r in AllRecs(h.disk)
    ensures StoredAt(h.disk, r, o)
  {
    hide Layout, Recs, LebOk, LiveOk, FlashOk, LogOk;
    var l :| l in h.disk && r in Recs(l, h.disk[l]);
    TheDisk(crc, size, flash, h, l);
    var p := RecInLeb(crc, size, l, h.disk[l], r);
    var s, s' := Layout(h.disk[l].items), Layout(h.live[l].items);
    WithinLonger(s, s', p.0, p.1);
  }

  lemma CrashedData(crc: Crc, size: nat, flash: Flash, h: Hist, objs: seq<seq<byte>>)
    requires HistOk(crc, size, flash, h) && Grown(h) && DataOk(h.live, h.log, objs)
    ensures |h.synced| <= |objs| && DataOk(h.disk, h.synced, objs[..|h.synced|])
  {
    hide StoredAt, Grown, LiveOk, FlashOk, AllRecs;
    forall i | 0 <= i < |h.synced| ensures StoredAt(h.disk, h.synced[i], objs[i]) {
      assert h.synced[i] == h.log[i];
      assert StoredAt(h.live, h.log[i], objs[i]);
      assert h.synced[i] in Members(h.synced);
      StoredOnDisk(crc, size, flash, h, h.synced[i], objs[i]);
    }
  }

  /** A crash leaves a consistent medium: it holds the objects up to the last synchronisation. */
  lemma CrashedMedium(crc: Crc, size: nat, lebCnt: nat, flash: Flash, h: Hist, objs: seq<seq<byte>>)
    requires MediumOk(crc, size, lebCnt, flash, h, objs)
    ensures |h.synced| <= |objs| && MediumOk(crc, size, lebCnt, flash, Crashed(h), objs[..|h.synced|])
  {
    hide HistOk, DataOk;
    CrashedHist(crc, size, flash, h);
    CrashedData(crc, size, flash, h, objs);
  }

  // ---- the mount-time scan ----------------------------------------------------------------------------

  /** All objects of an erase-block, found one after the other. */
  method ScanObjects(crc: Crc, buf: seq<byte>) returns (found: seq<Located>, err: Check)
    ensures (found, err) == ScanFrom(crc, buf, 0)
  {
    hide NextObj;
    found := [];
    var next := NextObj(crc, buf, 0);
    var at: nat := 0;
    while next.Found?
      invariant next == NextObj(crc, buf, at)
      invariant ScanFrom(crc, buf, 0).0 == found + ScanFrom(crc, buf, at).0
      invariant ScanFrom(crc, buf, 0).1 == ScanFrom(crc, buf, at).1
      decreases |buf| - if next.Found? then next.offs else |buf|
    {
      ghost var rest := ScanFrom(crc, buf, next.offs + next.len);
      var x: Located := (next.offs, buf[next.offs..next.offs + next.len]);
      assert ScanFrom(crc, buf, at).0 == [x] + rest.0;
      assert found + ([x] + rest.0) == (found + [x]) + rest.0;
      at := next.offs + next.len;
      found := found + [x];
      next := NextObj(crc, buf, at);
    }
    err := next.err;
    assert found + [] == found;
  }

  /** A mount can read the erase-block: no bad summary, and no corrupt object in a scan. */
  predicate Readable(crc: Crc, leb: seq<byte>)
    requires |leb| >= SUM_OFFS_SZ
  {
    match ReadSummary(crc, leb)
    case Entries(_) => true
    case BadSummary => false
    case NoSummary => ScanFrom(crc, leb, 0).1 == NoEnt
  }

  /** The records an erase-block contributes, from its summary or else from a scan for whole
      transactions. */
  method ReadLeb(crc: Crc, l: nat, leb: seq<byte>) returns (ok: bool, rs: seq<Rec>)
    requires |leb| >= SUM_OFFS_SZ
    ensures ok <==> Readable(crc, leb)
    ensures ok ==> rs == MountRecs(crc, l, leb)
    ensures ok <==> ReadSummary(crc, leb).Entries?
                    || (ReadSummary(crc, leb).NoSummary? && ScanFrom(crc, leb, 0).1 == NoEnt)
    ensures ReadSummary(crc, leb).Entries? ==>
              var es := ReadSummary(crc, leb).es; |rs| == |es| && forall i :: 0 <= i < |es| ==>
                rs[i] == LS.RecOf(l, es[i])
  {
    hide ReadSummary, ScanFrom, RecsOf, T.Run;
    match ReadSummary(crc, leb) {
      case BadSummary =>
        ok, rs := false, [];
      case Entries(es) =>
        ok, rs := true, EntryRecs(l, es);
      case NoSummary =>
        var found, err := ScanObjects(crc, leb);
        var whole := T.ScanLog(Tags(found));
        ok, rs := err == NoEnt, RecsOf(l, whole);
    }
  }

  lemma MembersSnoc(rs: seq<Rec>, r: Rec)
    ensures Members(rs + [r]) == Members(rs) + {r}
  {
  }

  lemma NoMembers(rs: seq<Rec>)
    ensures Members(rs[..0]) == {}
  {
  }

  /** Indexes the objects among `rs`; deletions are only collected. */
  method ProcRecs(ix: Index, rs: seq<Rec>, dels: seq<Rec>, ghost os: seq<Rec>)
    returns (dels': seq<Rec>, ghost os': seq<Rec>)
    requires ix.Valid() && Sound(ix.Contents()) && ix.Contents() == Replay(map[], os) && KnownLog(rs)
    modifies ix, ix.f
    ensures ix.Valid() && Sound(ix.Contents()) && ix.Contents() == Replay(map[], os')
    ensures Members(os') + Members(dels') == Members(os) + Members(dels) + Members(rs)
    ensures forall r :: r in dels' ==> r in dels || r in rs
    ensures Objects(os) ==> Objects(os')
    ensures Deletions(dels) ==> Deletions(dels')
  {
    hide Apply, Sound, Replay, Members, Processed;
    dels', os' := dels, os;
    NoMembers(rs);
    for i := 0 to |rs|
      invariant ix.Valid() && Sound(ix.Contents()) && ix.Contents() == Replay(map[], os')
      invariant Members(os') + Members(dels') == Members(os) + Members(dels) + Members(rs[..i])
      invariant forall r :: r in dels' ==> r in dels || r in rs
      invariant (Objects(os) ==> Objects(os')) && (Deletions(dels) ==> Deletions(dels'))
    {
      assert rs[..i + 1] == rs[..i] + [rs[i]];
      MembersSnoc(rs[..i], rs[i]);
      assert Known(rs[i]);
      if rs[i].Del? {
        MembersSnoc(dels', rs[i]);
        dels' := dels' + [rs[i]];
      } else {
        ProcessObj(ix, rs[i]);
        ReplaySnoc(map[], os', rs[i]);
        MembersSnoc(os', rs[i]);
        os' := os' + [rs[i]];
      }
    }
    assert rs[..|rs|] == rs;
  }

  /** Processes the collected deletions. */
  method ProcDels(ix: Index, dels: seq<Rec>, ghost os: seq<Rec>)
    requires ix.Valid() && Sound(ix.Contents()) && ix.Contents() == Replay(map[], os) && KnownLog(dels)
    modifies ix, ix.f
    ensures ix.Valid() && Sound(ix.Contents()) && ix.Contents() == Replay(map[], os + dels)
  {
    hide Apply, Sound, Replay, Processed;
    assert os + dels[..0] == os;
    for i := 0 to |dels|
      invariant ix.Valid() && Sound(ix.Contents()) && ix.Contents() == Replay(map[], os + dels[..i])
    {
      assert Known(dels[i]);
      ProcessObj(ix, dels[i]);
      ReplaySnoc(map[], os + dels[..i], dels[i]);
      assert os + dels[..i + 1] == os + dels[..i] + [dels[i]];
    }
    assert dels[..|dels|] == dels;
  }

  ghost function MountedBelow(crc: Crc, flash: Flash, lim: nat): set<Rec>
    requires forall l :: l in flash ==> |flash[l]| >= SUM_OFFS_SZ
  {
    set l, r | l in flash && l < lim && r in MountRecs(crc, l, flash[l]) :: r
  }

  lemma MountedNext(crc: Crc, flash: Flash, l: nat)
    requires forall l :: l in flash ==> |flash[l]| >= SUM_OFFS_SZ
    ensures l !in flash ==> MountedBelow(crc, flash, l + 1) == MountedBelow(crc, flash, l)
    ensures l in flash ==>
              MountedBelow(crc, flash, l + 1) == MountedBelow(crc, flash, l) + Members(MountRecs(crc, l, flash[l]))
  {
    hide MountRecs;
    forall r | r in MountedBelow(crc, flash, l + 1)
      ensures r in MountedBelow(crc, flash, l) || (l in flash && r in Members(MountRecs(crc, l, flash[l])))
    {
      var k :| k in flash && k < l + 1 && r in MountRecs(crc, k, flash[k]);
    }
    if l in flash {
      forall r | r in MountRecs(crc, l, flash[l]) ensures r in MountedBelow(crc, flash, l + 1) {
      }
    }
  }

  lemma FlashKeys(crc: Crc, size: nat, flash: Flash, h: Hist)
    requires HistOk(crc, size, flash, h)
    ensures flash.Keys == h.disk.Keys
  {
  }

  /** An erase-block of the log that, if it can be read at all, holds known records only. */
  ghost predicate LebSane(crc: Crc, size: nat, lebCnt: nat, l: nat, leb: seq<byte>) {
    && |leb| == size >= SUM_OFFS_SZ && LOG_FST_LNUM <= l < lebCnt
    && (Readable(crc, leb) ==> KnownLog(MountRecs(crc, l, leb)))
  }

  ghost predicate FlashSane(crc: Crc, size: nat, lebCnt: nat, flash: Flash) {
    forall l {:trigger LebSane(crc, size, lebCnt, l, flash[l])} :: l in flash ==>
      LebSane(crc, size, lebCnt, l, flash[l])
  }

  ghost predicate FlashReadable(crc: Crc, flash: Flash) {
    forall l :: l in flash ==> |flash[l]| >= SUM_OFFS_SZ && Readable(crc, flash[l])
  }

  /** An erase-block that the store has written can be read, and holds known records only. */
  lemma LebReadable(crc: Crc, size: nat, flash: Flash, h: Hist, l: nat)
    requires HistOk(crc, size, flash, h) && l in flash && KnownLog(h.synced)
    ensures |flash[l]| == size >= SUM_OFFS_SZ && Readable(crc, flash[l]) && KnownLog(MountRecs(crc, l, flash[l]))
  {
    hide OnFlash, LebOk, LS.SumAll, ReadSummary, ScanFrom, LiveOk, FlashOk, Rising, Layout, Recs, MountRecs, Known;
    FlashKeys(crc, size, flash, h);
    TheDisk(crc, size, flash, h, l);
    if l !in h.closed {
      ScanFinds(crc, l, flash[l], h.disk[l]);
    }
    LebStands(crc, size, flash[l], l, h.disk[l], l in h.closed);
    forall r | r in MountRecs(crc, l, flash[l]) ensures Known(r) {
      assert r in Members(Recs(l, h.disk[l]));
      assert r in AllRecs(h.disk);
      assert r in Members(h.synced);
    }
  }

  /** A medium that the store has written can be mounted. */
  lemma MediumReadable(crc: Crc, size: nat, lebCnt: nat, flash: Flash, h: Hist, objs: seq<seq<byte>>)
    requires MediumOk(crc, size, lebCnt, flash, h, objs) && KnownLog(h.synced)
    ensures FlashSane(crc, size, lebCnt, flash) && FlashReadable(crc, flash)
  {
    hide HistOk, DataOk, Grown, Readable, MountRecs, KnownLog;
    FlashKeys(crc, size, flash, h);
    forall l | l in flash ensures LebSane(crc, size, lebCnt, l, flash[l]) && Readable(crc, flash[l]) {
      LebReadable(crc, size, flash, h, l);
      KeysLive(crc, size, flash, h);
    }
  }

  lemma KeysLive(crc: Crc, size: nat, flash: Flash, h: Hist)
    requires HistOk(crc, size, flash, h)
    ensures h.disk.Keys <= h.live.Keys
  {
  }

  /** One erase-block that cannot be read, and the others as before. */
  lemma CorruptMedium(crc: Crc, size: nat, lebCnt: nat, flash: Flash, l: nat, leb: seq<byte>)
    requires FlashSane(crc, size, lebCnt, flash) && |leb| == size >= SUM_OFFS_SZ && LOG_FST_LNUM <= l < lebCnt
    requires !Readable(crc, leb)
    ensures FlashSane(crc, size, lebCnt, flash[l := leb]) && !FlashReadable(crc, flash[l := leb])
  {
    hide Readable, MountRecs;
    var flash' := flash[l := leb];
    forall k | k in flash' ensures LebSane(crc, size, lebCnt, k, flash'[k]) {
      if k != l { assert LebSane(crc, size, lebCnt, k, flash[k]); }
    }
    assert flash'[l] == leb;
  }

  ghost function MappedBelow(flash: Flash, lim: nat): set<nat> {
    set l | l in flash && l < lim
  }

  /** The erase-blocks below `lim` that are on flash are marked used and not counted free. */
  ghost predicate Marked(used: seq<bool>, nbFree: int, lebCnt: nat, flash: Flash, lim: nat) {
    && |used| == lebCnt && (forall k :: 0 <= k < lebCnt ==> (used[k] <==> k in flash && k < lim))
    && nbFree == lebCnt - |MappedBelow(flash, lim)|
  }

  lemma MarkNext(used: seq<bool>, nbFree: int, lebCnt: nat, flash: Flash, l: nat)
    requires Marked(used, nbFree, lebCnt, flash, l) && l < lebCnt
    ensures |used| == lebCnt
    ensures l !in flash ==> Marked(used, nbFree, lebCnt, flash, l + 1)
    ensures l in flash ==> Marked(used[l := true], nbFree - 1, lebCnt, flash, l + 1)
  {
    var s := MappedBelow(flash, l);
    assert MappedBelow(flash, l + 1) == if l in flash then s + {l} else s;
  }

  lemma MarkEnds(used: seq<bool>, nbFree: int, lebCnt: nat, flash: Flash, lim: nat)
    requires (forall l :: l in flash ==> LOG_FST_LNUM <= l < lebCnt) && lim >= lebCnt
             && Marked(used, nbFree, lebCnt, flash, lim)
    ensures |used| == lebCnt && (forall l :: 0 <= l < lebCnt ==> (used[l] <==> l in flash))
            && nbFree == lebCnt - |flash|
  {
    assert MappedBelow(flash, lim) == flash.Keys;
    assert |flash.Keys| == |flash|;
  }

  function NoneUsed(n: nat): seq<bool> {
    seq(n, _ => false)
  }

  lemma MarkNone(lebCnt: nat, flash: Flash)
    requires forall l :: l in flash ==> LOG_FST_LNUM <= l < lebCnt
    ensures Marked(NoneUsed(lebCnt), lebCnt, lebCnt, flash, LOG_FST_LNUM)
  {
    assert MappedBelow(flash, LOG_FST_LNUM) == {};
  }

  /** The objects and deletions met so far are those of the erase-blocks below `lim`. */
  ghost predicate Met(crc: Crc, flash: Flash, lim: nat, os: seq<Rec>, dels: seq<Rec>)
    requires forall l :: l in flash ==> |flash[l]| >= SUM_OFFS_SZ
  {
    && Objects(os) && Deletions(dels) && Members(os) + Members(dels) == MountedBelow(crc, flash, lim)
    && KnownLog(dels)
  }

  /** Processes one erase-block. */
  method MountLeb(crc: Crc, flash: Flash, l: nat, ix: Index, dels: seq<Rec>, ghost os: seq<Rec>)
    returns (ok: bool, dels': seq<Rec>, ghost os': seq<Rec>)
    requires l in flash && forall l :: l in flash ==> |flash[l]| >= SUM_OFFS_SZ
    requires Readable(crc, flash[l]) ==> KnownLog(MountRecs(crc, l, flash[l]))
    requires ix.Valid() && Sound(ix.Contents()) && ix.Contents() == Replay(map[], os) && Met(crc, flash, l, os, dels)
    modifies ix, ix.f
    ensures ok <==> Readable(crc, flash[l])
    ensures ok ==>
      && ix.Valid() && Sound(ix.Contents()) && ix.Contents() == Replay(map[], os') && Met(crc, flash, l + 1, os', dels')
  {
    hide MountRecs, Readable, MountedBelow, Known, Sound, Replay, Index.Valid, Index.Contents, Members;
    MountedNext(crc, flash, l);
    dels', os' := dels, os;
    var rs;
    ok, rs := ReadLeb(crc, l, flash[l]);
    if ok {
      dels', os' := ProcRecs(ix, rs, dels, os);
    }
  }

  /** Reads every erase-block of the log. It fails exactly if one of them cannot be read. Otherwise the
      index holds what all objects and then all deletions make of it. */
  method MountScan(crc: Crc, size: nat, lebCnt: nat, flash: Flash, ix: Index)
    returns (ok: bool, used: seq<bool>, nbFree: int, ghost os: seq<Rec>, ghost ds: seq<Rec>)
    requires FlashSane(crc, size, lebCnt, flash) && ix.Valid() && ix.Contents() == map[]
    modifies ix, ix.f
    ensures ok <==> FlashReadable(crc, flash)
    ensures forall l :: l in flash ==> |flash[l]| >= SUM_OFFS_SZ
    ensures ok ==> ix.Valid() && Sound(ix.Contents()) && ix.Contents() == Replay(map[], os + ds)
    ensures ok ==> Objects(os) && Deletions(ds) && Members(os) + Members(ds) == Mounted(crc, flash)
    ensures ok ==> |used| == lebCnt && nbFree == lebCnt - |flash| && forall l :: 0 <= l < lebCnt ==>
              (used[l] <==> l in flash)
  {
    hide *;
    used, nbFree := NoneUsed(lebCnt), lebCnt;
    var dels: seq<Rec>, l := [], LOG_FST_LNUM;
    os, ds := [], [];
    SaneSizes(crc, size, lebCnt, flash);
    NothingYet(crc, flash, lebCnt);
    MarkNone(lebCnt, flash);
    while l < lebCnt
      invariant LOG_FST_LNUM <= l
      invariant ix.Valid() && Sound(ix.Contents()) && ix.Contents() == Replay(map[], os)
      invariant Met(crc, flash, l, os, dels) && Marked(used, nbFree, lebCnt, flash, l)
      invariant forall k :: k in flash && k < l ==> Readable(crc, flash[k])
    {
      MarkNext(used, nbFree, lebCnt, flash, l);
      if l in flash {
        used, nbFree := used[l := true], nbFree - 1;
        SaneKnown(crc, size, lebCnt, flash, l);
        ok, dels, os := MountLeb(crc, flash, l, ix, dels, os);
        if !ok {
          NotReadable(crc, flash, l);
          return;
        }
      } else {
        MetNothing(crc, flash, l, os, dels);
      }
      l := l + 1;
    }
    MarkEnds(used, nbFree, lebCnt, flash, l);
    MetAll(crc, flash, lebCnt, l, os, dels);
    ProcDels(ix, dels, os);
    AllRead(crc, flash, l);
    ok, ds := true, dels;
  }

  lemma SaneSizes(crc: Crc, size: nat, lebCnt: nat, flash: Flash)
    requires FlashSane(crc, size, lebCnt, flash)
    ensures forall l :: l in flash ==> |flash[l]| >= SUM_OFFS_SZ && LOG_FST_LNUM <= l < lebCnt
  {
    hide Readable, KnownLog, MountRecs;
    forall l | l in flash ensures |flash[l]| >= SUM_OFFS_SZ && LOG_FST_LNUM <= l < lebCnt {
      assert LebSane(crc, size, lebCnt, l, flash[l]);
    }
  }

  lemma SaneKnown(crc: Crc, size: nat, lebCnt: nat, flash: Flash, l: nat)
    requires FlashSane(crc, size, lebCnt, flash) && l in flash
    ensures |flash[l]| >= SUM_OFFS_SZ && (Readable(crc, flash[l]) ==> KnownLog(MountRecs(crc, l, flash[l])))
  {
    assert LebSane(crc, size, lebCnt, l, flash[l]);
  }

  lemma NotReadable(crc: Crc, flash: Flash, l: nat)
    requires l in flash && |flash[l]| >= SUM_OFFS_SZ && !Readable(crc, flash[l])
    ensures !FlashReadable(crc, flash)
  {
    hide Readable;
  }

  lemma AllRead(crc: Crc, flash: Flash, lim: nat)
    requires forall l :: l in flash ==> |flash[l]| >= SUM_OFFS_SZ && l < lim && Readable(crc, flash[l])
    ensures FlashReadable(crc, flash)
  {
    hide Readable;
  }

  lemma NothingYet(crc: Crc, flash: Flash, lebCnt: nat)
    requires forall l :: l in flash ==> |flash[l]| >= SUM_OFFS_SZ && LOG_FST_LNUM <= l < lebCnt
    ensures Met(crc, flash, LOG_FST_LNUM, [], []) && Replay(map[], []) == map[] && Sound(map[])
  {
    hide MountRecs;
  }

  lemma MetNothing(crc: Crc, flash: Flash, l: nat, os: seq<Rec>, dels: seq<Rec>)
    requires forall l :: l in flash ==> |flash[l]| >= SUM_OFFS_SZ
    requires l !in flash && Met(crc, flash, l, os, dels)
    ensures Met(crc, flash, l + 1, os, dels)
  {
    hide MountedBelow, MountRecs, Known, Members;
    MountedNext(crc, flash, l);
  }

  lemma MetAll(crc: Crc, flash: Flash, lebCnt: nat, lim: nat, os: seq<Rec>, dels: seq<Rec>)
    requires forall l :: l in flash ==> |flash[l]| >= SUM_OFFS_SZ && LOG_FST_LNUM <= l < lebCnt
    requires lim >= lebCnt && Met(crc, flash, lim, os, dels)
    ensures Objects(os) && Deletions(dels) && Members(os) + Members(dels) == Mounted(crc, flash)
    ensures KnownLog(dels)
  {
    hide MountRecs, Known, Members;
    assert MountedBelow(crc, flash, lim) == Mounted(crc, flash);
  }
}
