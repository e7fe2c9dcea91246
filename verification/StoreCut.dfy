/** A commit to flash that is cut short by a loss of power after some of its pages. */
module StoreCut {
  import opened ObjectId
  import opened LogIndex
  import LS = LogSummary
  import opened ObjFormat
  import opened SumFormat
  import opened LebModel
  import opened LebCut
  import opened StoreModel
  import opened StoreSteps
  import opened StoreSync
  import opened StoreMount
  import opened StoreWrite
  import T = Transactions

  /** How many records of the log are on flash when `c` is what erase-block `l` holds there. */
  ghost function KeptCount(h: Hist, l: nat, c: Leb): int
    requires l in h.live
  {
    |h.log| - |Recs(l, h.live[l])| + |Recs(l, c)|
  }

  /** `b` was being written to erase-block `l`, and `c` of it is on flash. */
  ghost function CutHist(h: Hist, l: nat, b: Leb, c: Leb): Hist
    requires l in h.live && 0 <= KeptCount(h, l, c) <= |h.log|
  {
    Hist(h.live[l := b], h.disk[l := c], h.closed, h.log, h.log[..KeptCount(h, l, c)])
  }

  /** The current erase-block, with `b` as its new content in the buffer `buf`, is ready for a commit. */
  ghost predicate Ready(crc: Crc, size: nat, h: Hist, l: nat, b: Leb, buf: seq<byte>, syncOffs: nat) {
    && l in h.live && l !in h.closed && TailOk(h, l) && (forall k :: k in h.live && k != l ==> OnDisk(h, k))
    && LebOk(crc, b) && Recs(l, b) == Recs(l, h.live[l]) && Extends(h.live[l], b)
    && |buf| == size && |Layout(b.items)| <= size && buf[..|Layout(b.items)|] == Layout(b.items)
    && Layout(h.live[l].items) <= Layout(b.items)
    && (if l in h.disk then syncOffs <= size && Extends(h.disk[l], h.live[l])
        && Layout(h.disk[l].items) == buf[..syncOffs]
        else syncOffs == 0)
  }

  lemma RisingPrefix(a: seq<Rec>, b: seq<Rec>)
    requires a <= b && Rising(b)
    ensures Rising(a)
  {
  }

  /** Which records are on flash. */
  lemma CutLog(crc: Crc, size: nat, flash: Flash, h: Hist, l: nat, c: Leb)
    requires HistOk(crc, size, flash, h) && l in h.live && TailOk(h, l)
    requires forall k :: k in h.live && k != l ==> OnDisk(h, k)
    requires Recs(l, c) <= Recs(l, h.live[l])
    ensures 0 <= KeptCount(h, l, c) <= |h.log|
    ensures Members(h.log[..KeptCount(h, l, c)]) == AllRecs(h.disk[l := c])
  {
    hide Recs, LiveOk, FlashOk, AllRecs, Members, LogOk;
    var n := |h.log| - |Recs(l, h.live[l])|;
    CutSlice(h.log, n, Recs(l, h.live[l]), Recs(l, c));
    MembersAppend(h.log[..n], Recs(l, c));
    AllRecsUpdate(h.disk, l, c);
    OthersOnDisk(h, l);
    BeforeTail(crc, size, flash, h, l);
  }

  /** The records before those of the last erase-block are those of the others. */
  lemma BeforeTail(crc: Crc, size: nat, flash: Flash, h: Hist, l: nat)
    requires HistOk(crc, size, flash, h) && l in h.live && TailOk(h, l)
    ensures Members(h.log[..|h.log| - |Recs(l, h.live[l])|]) == AllRecs(h.live - {l})
  {
    hide Recs, LiveOk, FlashOk, AllRecs, Members;
    var rs, n := Recs(l, h.live[l]), |h.log| - |Recs(l, h.live[l])|;
    assert h.log == h.log[..n] + rs;
    MembersAppend(h.log[..n], rs);
    AllRecsUpdate(h.live, l, h.live[l]);
    OtherRecs(crc, size, flash, h, l);
    TailRecs(h, l);
    SameRest(Members(h.log[..n]), Members(rs), AllRecs(h.live - {l}), l);
  }

  lemma TailRecs(h: Hist, l: nat)
    requires l in h.live && TailOk(h, l)
    ensures var rs, n := Recs(l, h.live[l]), |h.log| - |Recs(l, h.live[l])|;
            0 <= n && forall r :: r in Members(h.log[..n]) ==> r.addr.lnum != l
    ensures forall r :: r in Members(Recs(l, h.live[l])) ==> r.addr.lnum == l
  {
    forall r | r in Recs(l, h.live[l]) ensures r.addr.lnum == l {
      RecsSource(l, T.Flatten(h.live[l].groups), r);
    }
  }

  /** Two sets that the records of one erase-block complete to the same set are the same. */
  lemma SameRest(a: set<Rec>, s: set<Rec>, b: set<Rec>, l: nat)
    requires a + s == b + s && forall r :: r in s ==> r.addr.lnum == l
    requires (forall r :: r in a ==> r.addr.lnum != l) && forall r :: r in b ==> r.addr.lnum != l
    ensures a == b
  {
    forall r | r in a ensures r in b {
      assert r in a + s;
    }
    forall r | r in b ensures r in a {
      assert r in b + s;
    }
  }

  lemma CutSlice(log: seq<Rec>, n: nat, rs: seq<Rec>, cs: seq<Rec>)
    requires n <= |log| && log[n..] == rs && cs <= rs
    ensures log[..n + |cs|] == log[..n] + cs
  {
    assert log == log[..n] + rs;
  }

  lemma OthersOnDisk(h: Hist, l: nat)
    requires (forall k :: k in h.live && k != l ==> OnDisk(h, k)) && h.disk.Keys <= h.live.Keys
    ensures h.disk - {l} == h.live - {l}
  {
    forall k | k in h.live && k != l ensures k in h.disk && h.disk[k] == h.live[k] {
      assert OnDisk(h, k);
    }
  }

  /** The records of other erase-blocks lie elsewhere. */
  lemma OtherRecs(crc: Crc, size: nat, flash: Flash, h: Hist, l: nat)
    requires HistOk(crc, size, flash, h) && l in h.live
    ensures forall r :: r in AllRecs(h.live - {l}) ==> r.addr.lnum != l
    ensures forall r :: r in Recs(l, h.live[l]) ==> r.addr.lnum == l
  {
    hide Recs, LiveOk, FlashOk, LebOk, Rising, Layout;
    forall r | r in AllRecs(h.live - {l}) ensures r.addr.lnum != l {
      var k :| k in h.live - {l} && r in Recs(k, (h.live - {l})[k]);
      TheLeb(crc, size, flash, h, k);
      var o := RecInLeb(crc, size, k, h.live[k], r);
    }
    forall r | r in Recs(l, h.live[l]) ensures r.addr.lnum == l {
      TheLeb(crc, size, flash, h, l);
      var o := RecInLeb(crc, size, l, h.live[l], r);
    }
  }

  /** What the cut leaves fits its erase-block. */
  lemma CutFits(crc: Crc, size: nat, flash: Flash, h: Hist, l: nat, b: Leb, buf: seq<byte>, p: nat, syncOffs: nat)
    requires HistOk(crc, size, flash, h) && Ready(crc, size, h, l, b, buf, syncOffs) && !Straddles(b, p)
    requires p % OBJ_PADDING == 0 && syncOffs <= p <= |Layout(b.items)|
    ensures Fits(crc, size, l, CutLeb(b, p)) && Layout(CutLeb(b, p).items) == buf[..p] == Layout(b.items)[..p]
    ensures Recs(l, CutLeb(b, p)) <= Recs(l, b)
  {
    hide Layout, Recs, LebOk, LiveOk, FlashOk, LogOk, Rising, TailOk, CutLeb, Straddles;
    TheLeb(crc, size, flash, h, l);
    CutOk(crc, l, b, p);
    RisingPrefix(Recs(l, CutLeb(b, p)), Recs(l, b));
    assert buf[..|Layout(b.items)|][..p] == buf[..p];
  }

  /** A commit that is cut between two objects leaves a consistent medium: everything synchronised
      before, and of the rest the transactions complete by the cut. */
  lemma CutCommitted(crc: Crc, size: nat, flash: Flash, h: Hist, l: nat, b: Leb, buf: seq<byte>, p: nat, syncOffs: nat)
    requires HistOk(crc, size, flash, h) && Ready(crc, size, h, l, b, buf, syncOffs) && !Straddles(b, p)
    requires p % OBJ_PADDING == 0 && syncOffs <= p <= |Layout(b.items)| && p + SUM_OFFS_SZ <= size
    requires l in flash ==> |flash[l]| == size
    ensures 0 <= KeptCount(h, l, CutLeb(b, p)) <= |h.log|
    ensures var leb := Flushed(flash, l, buf, p, syncOffs);
            HistOk(crc, size, flash[l := leb], CutHist(h, l, b, CutLeb(b, p)))
  {
    hide Layout, Recs, LebOk, LiveOk, FlashOk, TailOk, CutLeb, Straddles, Flushed, OnFlash, ReadSummary, AllRecs,
         Members, Extends, Rising;
    var c, leb := CutLeb(b, p), Flushed(flash, l, buf, p, syncOffs);
    CutFits(crc, size, flash, h, l, b, buf, p, syncOffs);
    FlushedHolds(crc, size, flash, h, l, buf, p, syncOffs, c);
    ErasedEnd(crc, leb, l, c);
    CutLog(crc, size, flash, h, l, c);
    assert h.log + [] == h.log && Recs(l, b) == Recs(l, h.live[l]) + [];
    BlockFits(crc, size, flash, h, l, b);
    LiveChanged(crc, size, flash, h, l, b, []);
    FlashUpdated(crc, size, flash, h.disk, h.closed, l, leb, c, false);
  }

  lemma BlockFits(crc: Crc, size: nat, flash: Flash, h: Hist, l: nat, b: Leb)
    requires HistOk(crc, size, flash, h) && l in h.live && LebOk(crc, b) && |Layout(b.items)| <= size
    requires Recs(l, b) == Recs(l, h.live[l])
    ensures Fits(crc, size, l, b)
  {
    hide Layout, Recs, LebOk, LiveOk, FlashOk, LogOk, Rising;
    TheLeb(crc, size, flash, h, l);
  }

  /** What was synchronised before the cut still is. */
  lemma CutSynced(crc: Crc, size: nat, flash: Flash, h: Hist, l: nat, b: Leb, buf: seq<byte>, p: nat, syncOffs: nat)
    requires HistOk(crc, size, flash, h) && Ready(crc, size, h, l, b, buf, syncOffs) && !Straddles(b, p)
    requires p % OBJ_PADDING == 0 && syncOffs <= p <= |Layout(b.items)|
    ensures |h.synced| <= KeptCount(h, l, CutLeb(b, p)) <= |h.log|
  {
    hide Layout, Recs, LebOk, LiveOk, FlashOk, LogOk, CutLeb, Straddles, Extends;
    CutFits(crc, size, flash, h, l, b, buf, p, syncOffs);
    if l in h.disk {
      ExtendsTransitive(h.disk[l], h.live[l], b);
      DiskLeb(crc, size, flash, h, l);
      ExtendsIs(h.disk[l], b);
      CutKeeps(crc, l, h.disk[l], b, p);
    }
  }

  lemma DiskLeb(crc: Crc, size: nat, flash: Flash, h: Hist, l: nat)
    requires HistOk(crc, size, flash, h) && l in h.disk
    ensures LebOk(crc, h.disk[l])
  {
    hide OnFlash, ReadSummary, LiveOk, LogOk;
    TheDisk(crc, size, flash, h, l);
  }

  lemma ExtendsIs(b0: Leb, b: Leb)
    requires Extends(b0, b)
    ensures b0.items <= b.items && b0.groups <= b.groups && b0.part == b.part == []
  {
  }

  /** The bytes before and behind the cut. */
  lemma CutLebBytes(flash: Flash, size: nat, l: nat, buf: seq<byte>, p: nat, syncOffs: nat, s: seq<byte>)
    requires |buf| == size && syncOffs <= p <= |s| <= size && buf[..|s|] == s && (l in flash ==> |flash[l]| == size)
    requires l in flash ==> flash[l][..syncOffs] == buf[..syncOffs] && forall i :: syncOffs <= i < size ==>
               flash[l][i] == 0xff
    requires l !in flash ==> syncOffs == 0
    ensures var leb := Flushed(flash, l, buf, p, syncOffs);
            |leb| == size && leb[..p] == s[..p] && forall i :: p <= i < size ==> leb[i] == 0xff
  {
    var leb := Flushed(flash, l, buf, p, syncOffs);
    assert leb[..p] == buf[..p];
    assert buf[..|s|][..p] == buf[..p];
  }

  /** Every object that the cut goes through is told by its checksum. */
  ghost predicate CutsSeen(crc: Crc, b: Leb, p: nat) {
    forall x :: x in Objs(b) ==> Told(crc, x, p)
  }

  predicate Told(crc: Crc, x: Located, p: nat) {
    Across(x, p) ==> CutSeen(crc, x.1, p - x.0)
  }

  /** A commit that is cut through an object leaves an erase-block that cannot be read. */
  lemma CutUnreadable(crc: Crc, size: nat, flash: Flash, h: Hist, l: nat, b: Leb, buf: seq<byte>, p: nat, syncOffs: nat)
    requires HistOk(crc, size, flash, h) && Ready(crc, size, h, l, b, buf, syncOffs)
    requires Straddles(b, p) && CutsSeen(crc, b, p)
    requires p % OBJ_PADDING == 0 && syncOffs <= p <= |Layout(b.items)| && p + SUM_OFFS_SZ <= size
    requires l in flash ==> |flash[l]| == size
    ensures var leb := Flushed(flash, l, buf, p, syncOffs);
            |leb| == size && !Readable(crc, leb)
  {
    hide Layout, Recs, LebOk, LiveOk, FlashOk, LogOk, TailOk, Flushed, ReadSummary, ScanFrom, CutSeen, Across, Extends,
         Blobs;
    var x :| x in Objs(b) && Across(x, p);
    assert Told(crc, x, p);
    var leb := Flushed(flash, l, buf, p, syncOffs);
    FlashKeys(crc, size, flash, h);
    if l in flash {
      TheDisk(crc, size, flash, h, l);
    }
    CutLebBytes(flash, size, l, buf, p, syncOffs, Layout(b.items));
    CutFails(crc, leb, b, p, x);
    NoSummaryThere(crc, leb, p);
  }

  lemma NoSummaryThere(crc: Crc, leb: seq<byte>, p: nat)
    requires p + SUM_OFFS_SZ <= |leb| <= LS.DEL_FLAG && forall i :: p <= i < |leb| ==> leb[i] == 0xff
    ensures ReadSummary(crc, leb) == NoSummary
  {
    WordOf(leb[|leb| - 4..|leb| - 4 + 4]);
  }

  /** After padding to a page the buffer is ready for a commit. */
  lemma PageReady(crc: Crc, size: nat, minIo: nat, flash: Flash, h: Hist, w: WBuf, es: seq<LS.SumEntry>, p: seq<byte>)
    requires minIo > 0 && HistOk(crc, size, flash, h) && BufOk(size, minIo, h, w, es) && w.avail > 0
    requires IsPad(crc, p) && CanPad(size, minIo, w, es, |p|) && (w.lnum in flash ==> |flash[w.lnum]| == size)
    ensures w.used + |p| <= |w.buf| && |p| <= w.avail
    ensures Ready(crc, size, h, w.lnum, Padded(h.live[w.lnum], p), Put(w, p).buf, w.syncOffs)
    ensures |Layout(Padded(h.live[w.lnum], p).items)| == w.used + |p|
  {
    hide Layout, LebOk, LiveOk, FlashOk, LogOk, IsPad, ReadSummary, Append, Flushed, Padded, OnFlash, TailOk, Recs,
         Extends;
    PageBytes(crc, size, flash, h, w, p);
    var buf, b := Append(w.buf, w.used, p), Padded(h.live[w.lnum], p);
    BufPrefix(w.buf, w.used, p);
    OnlyOpen(size, minIo, h, w, es);
  }

  lemma BufPrefix(buf: seq<byte>, used: nat, p: seq<byte>)
    requires used + |p| <= |buf|
    ensures |Append(buf, used, p)| == |buf| && forall i :: 0 <= i <= used ==> Append(buf, used, p)[..i] == buf[..i]
  {
    Appended(buf, used, p);
  }

  lemma OnlyOpen(size: nat, minIo: nat, h: Hist, w: WBuf, es: seq<LS.SumEntry>)
    requires minIo > 0 && BufOk(size, minIo, h, w, es) && w.avail > 0
    ensures forall k :: k in h.live && k != w.lnum ==> OnDisk(h, k)
  {
    hide OpenOk, Layout, OnDisk;
  }

  /** After padding and the summary the buffer is ready for a commit. */
  lemma CloseReady(crc: Crc, size: nat, minIo: nat, flash: Flash, h: Hist, w: WBuf, es: seq<LS.SumEntry>, p: seq<byte>,
                   o: seq<byte>)
    requires minIo > 0 && HistOk(crc, size, flash, h) && BufOk(size, minIo, h, w, es) && w.avail > 0
    requires w.used + |p| + |o| == size && IsPad(crc, p) && IsSum(crc, o, es, w.used + |p|)
    requires |es| < TWO32 && (forall e :: e in es ==> EntryOk(e)) && (w.lnum in flash ==> |flash[w.lnum]| == size)
    ensures w.used + |p| <= |w.buf| && |p| + |o| <= w.avail
    ensures Ready(crc, size, h, w.lnum, Finished(h.live[w.lnum], p, o), Put(Put(w, p), o).buf, w.syncOffs)
    ensures |Layout(Finished(h.live[w.lnum], p, o).items)| == size
  {
    hide Layout, LebOk, LiveOk, FlashOk, LogOk, IsPad, IsSum, ReadSummary, Append, Flushed, Finished, OnFlash, TailOk,
         Recs, Extends, EntryOk, LS.SumAll, SumSize;
    TheLeb(crc, size, flash, h, w.lnum);
    CloseBytes(crc, size, flash, h, w, es, p, o);
    SummaryAdded(crc, w.lnum, h.live[w.lnum], p, o, es, w.used + |p|);
    var buf1 := Append(w.buf, w.used, p);
    BufPrefix(w.buf, w.used, p);
    BufPrefix(buf1, w.used + |p|, o);
    assert Append(buf1, w.used + |p|, o)[..size] == Append(buf1, w.used + |p|, o);
    OnlyOpen(size, minIo, h, w, es);
  }

  /** A place to cut: at the end of a page, behind what is on flash and before the end. */
  ghost predicate CutPlace(size: nat, minIo: nat, syncOffs: nat, p: nat, end: nat) {
    p % OBJ_PADDING == 0 && syncOffs <= p < end && p + SUM_OFFS_SZ <= size
  }

  lemma CutGrown(crc: Crc, size: nat, flash: Flash, h: Hist, l: nat, b: Leb, buf: seq<byte>, p: nat, syncOffs: nat)
    requires HistOk(crc, size, flash, h) && Ready(crc, size, h, l, b, buf, syncOffs) && !Straddles(b, p)
    requires p % OBJ_PADDING == 0 && syncOffs <= p <= |Layout(b.items)|
    requires 0 <= KeptCount(h, l, CutLeb(b, p)) <= |h.log|
    ensures Grown(CutHist(h, l, b, CutLeb(b, p)))
  {
    hide Layout, Recs, LebOk, LiveOk, FlashOk, LogOk, TailOk, CutLeb, Straddles, Extends, KeptCount;
    CutFits(crc, size, flash, h, l, b, buf, p, syncOffs);
    forall k | k in h.disk && k != l ensures Layout(h.disk[k].items) <= Layout(h.live[k].items) {
      assert OnDisk(h, k);
    }
  }

  /** The history when the write of `b` to erase-block `l` was cut short at `p`. */
  ghost function AfterCut(h: Hist, l: nat, b: Leb, p: nat): Hist
    requires l in h.live
  {
    if !Straddles(b, p) && 0 <= KeptCount(h, l, CutLeb(b, p)) <= |h.log| then CutHist(h, l, b, CutLeb(b, p)) else h
  }

  /** The write of `b` to erase-block `l` was cut short at `p`. Between two objects, the medium holds
      everything synchronised before and the transactions complete by `p`; through an object that its
      checksum tells, the medium cannot be mounted. */
  ghost predicate Cut(crc: Crc, size: nat, lebCnt: nat, objs: seq<seq<byte>>, h0: Hist, flash: Flash, h: Hist, l: nat,
                      b: Leb, p: nat)
  {
    && l in h0.live && Extends(h0.live[l], b) && Recs(l, b) == Recs(l, h0.live[l]) && h.log == h0.log
    && (!Straddles(b, p) ==>
          && MediumOk(crc, size, lebCnt, flash, h, objs) && |h.synced| == KeptCount(h0, l, CutLeb(b, p))
          && h0.synced <= h.synced <= h.log && h.disk == h0.disk[l := CutLeb(b, p)] && l !in h.closed)
    && (Straddles(b, p) && CutsSeen(crc, b, p) ==> FlashSane(crc, size, lebCnt, flash) && !FlashReadable(crc, flash))
  }

  /** What a commit that is cut short leaves behind. */
  lemma CutOutcome(crc: Crc, size: nat, minIo: nat, lebCnt: nat, flash: Flash, h: Hist, objs: seq<seq<byte>>, l: nat,
                   b: Leb, buf: seq<byte>, p: nat, syncOffs: nat)
    requires MediumOk(crc, size, lebCnt, flash, h, objs) && KnownLog(h.log) && Ready(crc, size, h, l, b, buf, syncOffs)
    requires CutPlace(size, minIo, syncOffs, p, |Layout(b.items)|) && (l in flash ==> |flash[l]| == size)
    ensures Cut(crc, size, lebCnt, objs, h, flash[l := Flushed(flash, l, buf, p, syncOffs)], AfterCut(h, l, b, p), l, b,
                p)
  {
    hide Layout, Recs, HistOk, DataOk, CutLeb, Straddles, Extends, KeptCount, Flushed, CutsSeen, FlashSane,
         FlashReadable, Readable, LebOk, TailOk, Grown, KnownLog, OnDisk;
    KnownPart(crc, size, flash, h);
    if !Straddles(b, p) {
      CutSynced(crc, size, flash, h, l, b, buf, p, syncOffs);
      CutCommitted(crc, size, flash, h, l, b, buf, p, syncOffs);
      CutGrown(crc, size, flash, h, l, b, buf, p, syncOffs);
      DataKept(h.live, l, b, h.log, objs);
    } else if CutsSeen(crc, b, p) {
      MediumReadable(crc, size, lebCnt, flash, h, objs);
      CutUnreadable(crc, size, flash, h, l, b, buf, p, syncOffs);
      CorruptMedium(crc, size, lebCnt, flash, l, Flushed(flash, l, buf, p, syncOffs));
    }
  }

  lemma KnownPart(crc: Crc, size: nat, flash: Flash, h: Hist)
    requires HistOk(crc, size, flash, h) && KnownLog(h.log)
    ensures KnownLog(h.synced) && SUM_OFFS_SZ <= size && h.synced <= h.log
  {
    hide LiveOk, FlashOk, Known, AllRecs;
  }

  /** Whether a cut at `p` goes through an object in the buffer `s`, and whether checksums tell it. */
  method CheckCut(crc: Crc, s: seq<byte>, p: nat, ghost b: Leb) returns (through: bool, seen: bool)
    requires LebOk(crc, b) && s == Layout(b.items)
    ensures (through <==> Straddles(b, p)) && (seen <==> CutsSeen(crc, b, p))
  {
    hide Layout, ScanFrom, Blobs, Told, Across, Blank, ItemOk, Tags, PartOk, T.Written;
    AtEnd(crc, s);
    ScanLayout(crc, s, b.items, 0);
    var found, err := ScanObjects(crc, s);
    assert found == Objs(b);
    through, seen := false, true;
    for i := 0 to |found|
      invariant through <==> exists x :: x in found[..i] && Across(x, p)
      invariant seen <==> forall x :: x in found[..i] ==> Told(crc, x, p)
    {
      assert found[..i + 1] == found[..i] + [found[i]];
      through, seen := through || Across(found[i], p), seen && Told(crc, found[i], p);
    }
    assert found[..|found|] == found;
  }

  lemma AtEnd(crc: Crc, s: seq<byte>)
    ensures Blank(crc, s, 0 + |s|) && s[0..0 + |s|] == s
  {
  }
}
