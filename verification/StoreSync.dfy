/** Synchronising the write buffer: the page is padded or the erase-block is closed with its summary,
    and the buffer is committed. */
module StoreSync {
  import opened ObjectId
  import opened LogIndex
  import LS = LogSummary
  import opened ObjFormat
  import opened SumFormat
  import opened LebModel
  import opened StoreModel
  import opened StoreSteps

  function Append(buf: seq<byte>, used: nat, p: seq<byte>): (buf': seq<byte>)
    requires used + |p| <= |buf|
    ensures |buf'| == |buf|
  {
    buf[..used] + p + buf[used + |p|..]
  }

  lemma Appended(buf: seq<byte>, used: nat, p: seq<byte>)
    requires used + |p| <= |buf|
    ensures Append(buf, used, p)[..used + |p|] == buf[..used] + p
    ensures forall i :: 0 <= i <= used ==> Append(buf, used, p)[..i] == buf[..i]
  {
  }

  /** The write buffer after `o` was copied into it. */
  function Put(w: WBuf, o: seq<byte>): WBuf
    requires w.used + |o| <= |w.buf| && |o| <= w.avail
  {
    w.(buf := Append(w.buf, w.used, o), used := w.used + |o|, avail := w.avail - |o|)
  }

  /** The bytes of the erase-block after a commit. */
  function Flushed(flash: Flash, l: nat, buf: seq<byte>, used: nat, syncOffs: nat): seq<byte>
    requires syncOffs <= used <= |buf| && (l in flash ==> |flash[l]| == |buf|)
  {
    var leb := if l in flash then flash[l] else Bytes(0xff, |buf|);
    leb[..syncOffs] + buf[syncOffs..used] + leb[used..]
  }

  lemma FlushedHolds(crc: Crc, size: nat, flash: Flash, h: Hist, l: nat, buf: seq<byte>, used: nat, syncOffs: nat,
                     b: Leb)
    requires HistOk(crc, size, flash, h) && syncOffs <= used <= |buf| == size && buf[..used] == Layout(b.items)
    requires if l in h.disk then Layout(h.disk[l].items) == buf[..syncOffs] else syncOffs == 0
    requires l in flash ==> |flash[l]| == size
    ensures |Flushed(flash, l, buf, used, syncOffs)| == size && OnFlash(Flushed(flash, l, buf, used, syncOffs), b)
  {
    if l in flash {
      TheDisk(crc, size, flash, h, l);
    }
    var leb := if l in flash then flash[l] else Bytes(0xff, size);
    CommitBytes(size, leb, buf, used, syncOffs, b);
  }

  /** The history once the current erase-block, now `b`, is on flash. */
  function Synced(h: Hist, l: nat, b: Leb, close: bool): Hist {
    Hist(h.live[l := b], h.disk[l := b], if close then h.closed + {l} else h.closed, h.log, h.log)
  }

  lemma SyncedOk(crc: Crc, size: nat, flash: Flash, h: Hist, l: nat, b: Leb, leb: seq<byte>, close: bool)
    requires HistOk(crc, size, flash, h) && l in h.live && l !in h.closed && forall k :: k in h.live && k != l ==>
               OnDisk(h, k)
    requires LebOk(crc, b) && Recs(l, b) == Recs(l, h.live[l]) && |Layout(b.items)| <= size
    requires |leb| == size && OnFlash(leb, b) && SummaryOk(crc, leb, l, b, close)
    ensures HistOk(crc, size, flash[l := leb], Synced(h, l, b, close))
    ensures Synced(h, l, b, close).disk == Synced(h, l, b, close).live
  {
    hide Layout, LebOk, LiveOk, FlashOk, LogOk, Recs, OnFlash, ReadSummary, Rising;
    assert h.log + [] == h.log;
    TheLeb(crc, size, flash, h, l);
    LiveChanged(crc, size, flash, h, l, b, []);
    var h1 := h.(live := h.live[l := b]);
    assert Recs(l, b) == Recs(l, h.live[l]) + [];
    assert Fits(crc, size, l, b) && h1 == h.(live := h.live[l := b], log := h.log + []);
    Committed(crc, size, flash, h1, l, leb, close);
  }

  // ---- padding to the next page -----------------------------------------------------------------------

  /** The current erase-block has room left after padding by `n`. */
  ghost predicate CanPad(size: nat, minIo: nat, w: WBuf, es: seq<LS.SumEntry>, n: nat) {
    && n % OBJ_PADDING == 0 && (w.used + n) % OBJ_PADDING == 0
    && minIo > 0 && (w.used + n) % minIo == 0 && w.used + n + SumSize(|es|) <= size
  }

  /** The write buffer after a commit that leaves the erase-block open. */
  lemma PageBuf(size: nat, minIo: nat, h: Hist, w: WBuf, es: seq<LS.SumEntry>, b: Leb, buf: seq<byte>, n: nat)
    requires minIo > 0 && BufOk(size, minIo, h, w, es) && w.avail > 0 && CanPad(size, minIo, w, es, n)
    requires |buf| == size && buf[..w.used + n] == Layout(b.items) && w.syncOffs < w.used
    requires Recs(w.lnum, b) == Recs(w.lnum, h.live[w.lnum]) && Extends(h.live[w.lnum], b)
    ensures BufOk(size, minIo, Synced(h, w.lnum, b, false), WBuf(w.lnum, buf, w.used + n, w.avail - n, w.used + n), es)
  {
    hide Layout, Recs, TailOk, Extends, LS.SumAll;
    var h', w' := Synced(h, w.lnum, b, false), WBuf(w.lnum, buf, w.used + n, w.avail - n, w.used + n);
    PageOpen(minIo, h, w, es, h', w', b);
    assert w'.avail > 0 && w'.lnum != 0 && w'.used + w'.avail == size;
    assert h'.live[w.lnum] == b;
    forall l | l in h'.live && l != w.lnum ensures OnDisk(h', l) {
      assert OnDisk(h, l);
    }
  }

  lemma PageOpen(minIo: nat, h: Hist, w: WBuf, es: seq<LS.SumEntry>, h': Hist, w': WBuf, b: Leb)
    requires minIo > 0 && w.lnum in h.live && w.used <= |w.buf| && OpenOk(minIo, h, w, es)
    requires w'.used <= |w'.buf| && w'.used % OBJ_PADDING == 0 && w'.used % minIo == 0 && w'.syncOffs == w'.used
    requires w'.lnum == w.lnum && w'.avail >= SumSize(|es|) && w'.used > 0
    requires Recs(w.lnum, b) == Recs(w.lnum, h.live[w.lnum]) && Extends(h.live[w.lnum], b)
    requires Layout(b.items) == w'.buf[..w'.used] && h' == Synced(h, w.lnum, b, false)
    ensures OpenOk(minIo, h', w', es)
  {
    hide Layout, Recs, TailOk, LS.SumAll, SumSize;
    TailSynced(h, w.lnum, b, false);
  }

  lemma TailSynced(h: Hist, l: nat, b: Leb, close: bool)
    requires l in h.live && TailOk(h, l) && Recs(l, b) == Recs(l, h.live[l])
    ensures TailOk(Synced(h, l, b, close), l)
  {
    hide Recs;
    assert h.log[..|h.log|] == h.log;
  }

  /** The buffer and the erase-block after padding. */
  lemma PageBytes(crc: Crc, size: nat, flash: Flash, h: Hist, w: WBuf, p: seq<byte>)
    requires HistOk(crc, size, flash, h) && w.lnum in h.live && |w.buf| == size && w.syncOffs <= w.used
    requires w.used + |p| + SUM_OFFS_SZ <= size && IsPad(crc, p) && h.live[w.lnum].part == []
    requires w.buf[..w.used] == Layout(h.live[w.lnum].items)
    requires if w.lnum in h.disk then Layout(h.disk[w.lnum].items) == w.buf[..w.syncOffs] else w.syncOffs == 0
    requires w.lnum in flash ==> |flash[w.lnum]| == size
    ensures var b := Padded(h.live[w.lnum], p);
            var buf := Append(w.buf, w.used, p);
            var leb := Flushed(flash, w.lnum, buf, w.used + |p|, w.syncOffs);
            && LebOk(crc, b) && Recs(w.lnum, b) == Recs(w.lnum, h.live[w.lnum])
               && buf[..w.used + |p|] == Layout(b.items)
            && Layout(h.live[w.lnum].items) <= Layout(b.items) && Extends(h.live[w.lnum], b)
            && |leb| == size && OnFlash(leb, b) && SummaryOk(crc, leb, w.lnum, b, false)
  {
    hide Layout, LebOk, LiveOk, FlashOk, LogOk, IsPad, ReadSummary, Append, Flushed, Padded;
    var l := w.lnum;
    var b := Padded(h.live[l], p);
    TheLeb(crc, size, flash, h, l);
    PaddedOk(crc, l, h.live[l], p);
    var buf := Append(w.buf, w.used, p);
    Appended(w.buf, w.used, p);
    FlushedHolds(crc, size, flash, h, l, buf, w.used + |p|, w.syncOffs, b);
    ErasedEnd(crc, Flushed(flash, l, buf, w.used + |p|, w.syncOffs), l, b);
  }

  /** The state after padding and committing. */
  lemma PageStep(crc: Crc, size: nat, minIo: nat, flash: Flash, h: Hist, w: WBuf, es: seq<LS.SumEntry>, p: seq<byte>)
    requires minIo > 0 && HistOk(crc, size, flash, h) && BufOk(size, minIo, h, w, es)
    requires w.avail > 0 && CanPad(size, minIo, w, es, |p|) && IsPad(crc, p) && w.syncOffs < w.used
    requires w.lnum in flash ==> |flash[w.lnum]| == size
    ensures w.used + |p| <= |w.buf| && |p| <= w.avail
    ensures var w' := Put(w, p);
            var h' := Synced(h, w.lnum, Padded(h.live[w.lnum], p), false);
            && HistOk(crc, size, flash[w.lnum := Flushed(flash, w.lnum, w'.buf, w'.used, w.syncOffs)], h')
            && BufOk(size, minIo, h', w'.(syncOffs := w'.used), es)
            && Layout(h.live[w.lnum].items) <= Layout(Padded(h.live[w.lnum], p).items)
            && Recs(w.lnum, Padded(h.live[w.lnum], p)) == Recs(w.lnum, h.live[w.lnum])
  {
    hide Layout, LebOk, LiveOk, FlashOk, LogOk, IsPad, ReadSummary, Append, Flushed, Padded, OnFlash, Synced, TailOk,
         Recs, Extends;
    PageBytes(crc, size, flash, h, w, p);
    var b := Padded(h.live[w.lnum], p);
    var buf := Append(w.buf, w.used, p);
    var leb := Flushed(flash, w.lnum, buf, w.used + |p|, w.syncOffs);
    SyncedOk(crc, size, flash, h, w.lnum, b, leb, false);
    PageBuf(size, minIo, h, w, es, b, buf, |p|);
  }

  // ---- closing an erase-block ---------------------------------------------------------------------------

  /** The write buffer after the commit that closes the erase-block. */
  lemma CloseBuf(size: nat, minIo: nat, h: Hist, w: WBuf, es: seq<LS.SumEntry>, b: Leb, buf: seq<byte>)
    requires minIo > 0 && BufOk(size, minIo, h, w, es) && w.avail > 0
    requires |buf| == size && buf == Layout(b.items)
    requires Synced(h, w.lnum, b, true).disk == Synced(h, w.lnum, b, true).live
    ensures BufOk(size, minIo, Synced(h, w.lnum, b, true), WBuf(w.lnum, buf, size, 0, size), [])
  {
    assert buf[..size] == buf;
  }

  /** The state after padding, the summary and a commit. */
  lemma CloseStep(crc: Crc, size: nat, minIo: nat, flash: Flash, h: Hist, w: WBuf, es: seq<LS.SumEntry>, p: seq<byte>,
                  o: seq<byte>)
    requires minIo > 0 && HistOk(crc, size, flash, h) && BufOk(size, minIo, h, w, es)
    requires w.avail > 0 && w.used + |p| + |o| == size && IsPad(crc, p) && IsSum(crc, o, es, w.used + |p|)
    requires |es| < TWO32 && forall e :: e in es ==> EntryOk(e)
    requires w.lnum in flash ==> |flash[w.lnum]| == size
    ensures w.used + |p| <= |w.buf| && |p| + |o| <= w.avail
    ensures var w' := Put(Put(w, p), o);
            var h' := Synced(h, w.lnum, Finished(h.live[w.lnum], p, o), true);
            && HistOk(crc, size, flash[w.lnum := Flushed(flash, w.lnum, w'.buf, w'.used, w.syncOffs)], h')
            && BufOk(size, minIo, h', w'.(syncOffs := w'.used), [])
            && Layout(h.live[w.lnum].items) <= Layout(Finished(h.live[w.lnum], p, o).items)
            && Recs(w.lnum, Finished(h.live[w.lnum], p, o)) == Recs(w.lnum, h.live[w.lnum])
  {
    hide Layout, LebOk, LiveOk, FlashOk, LogOk, IsPad, IsSum, ReadSummary, Append, Flushed, Finished, OnFlash, TailOk,
         Extends;
    TheLeb(crc, size, flash, h, w.lnum);
    CloseBytes(crc, size, flash, h, w, es, p, o);
    var b := Finished(h.live[w.lnum], p, o);
    SummaryAdded(crc, w.lnum, h.live[w.lnum], p, o, es, w.used + |p|);
    var buf := Append(Append(w.buf, w.used, p), w.used + |p|, o);
    SyncedOk(crc, size, flash, h, w.lnum, b, Flushed(flash, w.lnum, buf, size, w.syncOffs), true);
    CloseBuf(size, minIo, h, w, es, b, buf);
  }

  lemma CloseBytes(crc: Crc, size: nat, flash: Flash, h: Hist, w: WBuf, es: seq<LS.SumEntry>, p: seq<byte>,
                   o: seq<byte>)
    requires HistOk(crc, size, flash, h) && w.lnum in h.live && |w.buf| == size && w.used + |p| + |o| == size
    requires w.syncOffs <= w.used
    requires w.buf[..w.used] == Layout(h.live[w.lnum].items) && IsPad(crc, p) && IsSum(crc, o, es, w.used + |p|)
    requires if w.lnum in h.disk then Layout(h.disk[w.lnum].items) == w.buf[..w.syncOffs] else w.syncOffs == 0
    requires |es| < TWO32 && (forall e :: e in es ==> EntryOk(e)) && es == LS.SumAll(Recs(w.lnum, h.live[w.lnum]))
    requires LebOk(crc, h.live[w.lnum]) && h.live[w.lnum].part == []
    requires w.lnum in flash ==> |flash[w.lnum]| == size
    ensures var b := Finished(h.live[w.lnum], p, o);
            var buf := Append(Append(w.buf, w.used, p), w.used + |p|, o);
            var leb := Flushed(flash, w.lnum, buf, size, w.syncOffs);
            && buf == Layout(b.items) && Layout(h.live[w.lnum].items) <= Layout(b.items) && Extends(h.live[w.lnum], b)
            && |leb| == size && OnFlash(leb, b) && SummaryOk(crc, leb, w.lnum, b, true)
  {
    hide Layout, LebOk, LiveOk, FlashOk, LogOk, IsPad, IsSum, ReadSummary, Append, Flushed, Finished;
    var l := w.lnum;
    SummaryAdded(crc, l, h.live[l], p, o, es, w.used + |p|);
    var b := Finished(h.live[l], p, o);
    var buf1 := Append(w.buf, w.used, p);
    var buf := Append(buf1, w.used + |p|, o);
    Appended(w.buf, w.used, p);
    Appended(buf1, w.used + |p|, o);
    assert buf[..size] == buf;
    FlushedHolds(crc, size, flash, h, l, buf, size, w.syncOffs, b);
    var leb := Flushed(flash, l, buf, size, w.syncOffs);
    assert leb == buf by { assert leb[..size] == leb; }
    ClosedReadable(crc, leb, Layout(h.live[l].items) + p, es, o);
  }
}
