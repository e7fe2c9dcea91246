/** Committing the write buffer: padding and summary objects, room for them, and what is on flash afterwards. */
module StoreCommit {
  import opened ObjectId
  import opened LogIndex
  import LS = LogSummary
  import opened ObjFormat
  import opened SumFormat
  import opened LebModel
  import opened StoreModel
  import opened StoreSteps
  import opened StoreSync
  import opened StoreWrite
  import opened StoreMount
  import T = Transactions
  import opened Pages
  import opened StoreAlloc

  function PadBytes(crc: Crc, n: nat): (p: seq<byte>)
    requires n < CH_SZ && n % OBJ_PADDING == 0
    ensures |p| == n && IsPad(crc, p)
  {
    Bytes(PAD_BYTE, n)
  }

  /** A padding object. */
  function MakePad(crc: Crc, n: nat, sq: U64): (p: seq<byte>)
    requires CH_SZ <= n < TWO32 && n % OBJ_PADDING == 0
    ensures |p| == n && IsPad(crc, p)
  {
    StubPrepared(n, PAD_TYPE, Bytes(PAD_BYTE, n - CH_SZ));
    Packed(crc, PadObj(n), sq, T.TRANS_ATOM);
    PackHeader(crc, PadObj(n), sq, T.TRANS_ATOM)
  }

  /** The summary object that is to be written at `offs`. */
  function MakeSum(crc: Crc, es: seq<LS.SumEntry>, offs: U32, sq: U64): (o: seq<byte>)
    requires SumSize(|es|) < TWO32
    ensures |o| == SumSize(|es|) && IsSum(crc, o, es, offs)
  {
    var gap: seq<byte> := Bytes(0, GapSize(|es|));
    StubPrepared(SumSize(|es|), SUM_TYPE, SumTail(es, offs, gap));
    Packed(crc, PackSum(es, offs, gap), sq, T.TRANS_ATOM);
    PackHeader(crc, PackSum(es, offs, gap), sq, T.TRANS_ATOM)
  }

  /** What fills `n` bytes: pad bytes, or a padding object with the number `sq`. Nothing else is ever padded. */
  function PadOf(crc: Crc, n: int, sq: nat): seq<byte> {
    if n % OBJ_PADDING != 0 || n < 0 then []
    else if n < CH_SZ then PadBytes(crc, n)
    else if n < TWO32 && sq < TWO64 then MakePad(crc, n, sq)
    else []
  }

  /** How many sequence numbers the padding takes. */
  function PadTakes(n: int): (k: nat)
    ensures k <= 1
  {
    if n < CH_SZ then 0 else 1
  }

  /** The summary that lands at `offs`. */
  function SumOf(crc: Crc, es: seq<LS.SumEntry>, offs: int, sq: nat): seq<byte> {
    if SumSize(|es|) < TWO32 && 0 <= offs < TWO32 && sq < TWO64 then MakeSum(crc, es, offs, sq) else []
  }

  lemma PadCases(crc: Crc, n: nat, sq: nat)
    requires n < TWO32 && n % OBJ_PADDING == 0 && sq < TWO64
    ensures if n < CH_SZ then PadOf(crc, n, sq) == PadBytes(crc, n) && PadTakes(n) == 0
            else PadOf(crc, n, sq) == MakePad(crc, n, sq) && PadTakes(n) == 1
  {
  }

  lemma SumCases(crc: Crc, es: seq<LS.SumEntry>, offs: U32, sq: U64)
    requires SumSize(|es|) < TWO32
    ensures SumOf(crc, es, offs, sq) == MakeSum(crc, es, offs, sq)
  {
  }

  lemma PutFields(w: WBuf, p: seq<byte>)
    requires w.used + |p| <= |w.buf| && |p| <= w.avail
    ensures var w' := Put(w, p);
            w'.used == w.used + |p| && w'.avail == w.avail - |p| && w'.lnum == w.lnum && w'.syncOffs == w.syncOffs
              && |w'.buf| == |w.buf|
  {
    hide Append;
  }

  lemma FlashSize(crc: Crc, size: nat, flash: Flash, h: Hist, l: nat)
    requires HistOk(crc, size, flash, h)
    ensures l in flash ==> |flash[l]| == size
  {
    hide OneOk, LiveOk, LogOk;
    FlashKeys(crc, size, flash, h);
    if l in flash {
      TheDisk(crc, size, flash, h, l);
    }
  }

  /** Behind the next page boundary `m` there is no room for a padding object and the summary of `n` entries and one
      more. */
  ghost predicate MustClose(used: nat, minIo: nat, n: nat, lebSize: nat) {
    exists m :: used <= m < used + minIo && m % minIo == 0
                && m + ((28 + 26 * n + 4 + 7) / 8 * 8 + 26 + 7) / 8 * 8 + 24 > lebSize
  }

  lemma MustCloseIs(used: nat, minIo: nat, n: nat, lebSize: nat)
    requires minIo > 0
    ensures MustClose(used, minIo, n, lebSize) <==> Align(used, minIo) + SumSizeWithExtra(n, 1) + CH_SZ > lebSize
  {
    hide Align;
    SumSizeIs(n, 1);
    forall m | used <= m < used + minIo && m % minIo == 0 ensures m == Align(used, minIo) {
      OnePage(m, Align(used, minIo), minIo);
    }
  }

  lemma OnePage(a: nat, b: nat, minIo: nat)
    requires minIo > 0 && a % minIo == 0 && b % minIo == 0 && -(minIo as int) < a - b < minIo
    ensures a == b
  {
    if a < b {
      PageApart(a, b, minIo);
    } else if b < a {
      PageApart(b, a, minIo);
    }
  }

  /** Padding to the next page leaves room for the summary. */
  lemma PageRoom(size: nat, minIo: nat, h: Hist, w: WBuf, es: seq<LS.SumEntry>)
    requires IoOk(size, minIo) && BufOk(size, minIo, h, w, es) && w.avail > 0
    requires Align(w.used, minIo) + SumSizeWithExtra(|es|, 1) + CH_SZ <= size
    ensures CanPad(size, minIo, w, es, Align(w.used, minIo) - w.used) && w.lnum in h.live && w.used <= |w.buf|
    ensures w.syncOffs % minIo == 0
    ensures w.used <= Align(w.used, minIo) && Align(w.used, minIo) - w.used < w.avail
    ensures w.used + w.avail == |w.buf| == size < TWO32
    ensures Align(w.used, minIo) % minIo == 0 && (Align(w.used, minIo) - w.used) % OBJ_PADDING == 0
    ensures forall k :: k in h.live && k != w.lnum ==> OnDisk(h, k)
  {
    hide Layout, Align, SumSize, SumSizeWithExtra;
    PadAmount(w.used, minIo);
    ReservedIsEnough(|es|, 1);
    SumSizeMonotone(|es|, |es| + 1);
  }

  lemma ClosePad(size: nat, minIo: nat, used: nat, avail: nat, n: nat)
    requires IoOk(size, minIo) && used % OBJ_PADDING == 0 && used + avail == size && avail >= SumSize(n)
    ensures (avail - SumSize(n)) % OBJ_PADDING == 0
  {
    hide SumSize;
    PageMultiple(size, minIo);
    Eights(size, used, SumSize(n));
  }

  /** There is always room for the summary, and its entries fit their fields. */
  lemma CloseRoom(crc: Crc, size: nat, minIo: nat, flash: Flash, h: Hist, w: WBuf, es: seq<LS.SumEntry>, sqnum: nat)
    requires IoOk(size, minIo) && HistOk(crc, size, flash, h) && BufOk(size, minIo, h, w, es) && w.avail > 0
    requires OpenBound(h, w, sqnum) && sqnum < TWO64
    ensures w.avail >= SumSize(|es|) && (w.avail - SumSize(|es|)) % OBJ_PADDING == 0 && SumSize(|es|) < TWO32
    ensures |es| < TWO32
    ensures w.lnum in h.live && w.syncOffs % minIo == 0 && w.syncOffs <= w.used
    ensures w.used + w.avail == |w.buf| == size < TWO32
    ensures size % minIo == 0
    ensures forall k :: k in h.live && k != w.lnum ==> OnDisk(h, k)
    ensures forall e :: e in es ==> EntryOk(e)
  {
    hide Layout, LS.SumAll, Recs, HistOk, EntryOk, TailOk;
    ClosePad(size, minIo, w.used, w.avail, |es|);
    EntriesInLog(crc, size, flash, h, w.lnum, sqnum);
  }

  /** The entries of the summary fit their fields. */
  lemma EntriesInLog(crc: Crc, size: nat, flash: Flash, h: Hist, l: nat, sqnum: nat)
    requires HistOk(crc, size, flash, h) && l in h.live && sqnum < TWO64
    requires forall r :: r in Recs(l, h.live[l]) ==> r.addr.sqnum <= sqnum
    ensures forall e :: e in LS.SumAll(Recs(l, h.live[l])) ==> EntryOk(e)
  {
    hide Recs, LebOk, LiveOk, FlashOk, LogOk, Layout, LS.SumAll, EntryOk;
    TheLeb(crc, size, flash, h, l);
    forall r | r in Recs(l, h.live[l]) ensures FieldsOk(r) {
      var o := RecInLeb(crc, size, l, h.live[l], r);
    }
    EntriesFit(Recs(l, h.live[l]));
  }

  /** The space for the summary is there while the erase-block is open. */
  lemma SummaryRoom(size: nat, minIo: nat, h: Hist, w: WBuf, es: seq<LS.SumEntry>)
    requires minIo > 0 && BufOk(size, minIo, h, w, es)
    ensures if w.avail > 0 then w.avail >= SumSize(|es|) else es == []
    ensures w.avail > 0 ==> w.lnum in h.live && es == LS.SumAll(Recs(w.lnum, h.live[w.lnum]))
    ensures w.avail > 0 ==> w.used + w.avail == size == |w.buf|
  {
    hide Layout;
  }

  lemma ClosedSum(size: nat, minIo: nat, h: Hist, w: WBuf, es: seq<LS.SumEntry>)
    requires minIo > 0 && BufOk(size, minIo, h, w, es) && w.avail == 0
    ensures es == []
  {
  }

  /** Every erase-block that holds something is on flash as it was written. */
  ghost predicate AllSynced(h: Hist) {
    forall l :: l in h.live ==> h.live[l] == EMPTY_LEB || OnDisk(h, l)
  }

  /** The object `o` of record `r` is on flash. */
  ghost predicate OnFlashAt(flash: Flash, r: Rec, o: seq<byte>) {
    r.addr.lnum in flash && Within(flash[r.addr.lnum], r.addr.offs, o)
  }

  lemma StoredOnFlash(crc: Crc, size: nat, flash: Flash, h: Hist, r: Rec, o: seq<byte>)
    requires HistOk(crc, size, flash, h) && StoredAt(h.live, r, o) && OnDisk(h, r.addr.lnum)
    ensures OnFlashAt(flash, r, o)
  {
    hide Layout, LebOk, LiveOk, FlashOk, LogOk, ReadSummary, HasId, RecAt;
    var l := r.addr.lnum;
    TheDisk(crc, size, flash, h, l);
    var s := Layout(h.disk[l].items);
    assert flash[l][..|s|] == s;
    WithinLonger(s, flash[l], r.addr.offs, o);
  }

  lemma StoredNonEmpty(live: Lebs, r: Rec, o: seq<byte>)
    requires StoredAt(live, r, o)
    ensures r.addr.lnum in live && live[r.addr.lnum] != EMPTY_LEB
  {
  }

  lemma SyncedOnFlash(crc: Crc, size: nat, flash: Flash, h: Hist, objs: seq<seq<byte>>)
    requires HistOk(crc, size, flash, h) && DataOk(h.live, h.log, objs) && AllSynced(h)
    ensures |objs| == |h.log| && forall i :: 0 <= i < |objs| ==> OnFlashAt(flash, h.log[i], objs[i])
  {
    hide HistOk, StoredAt, OnFlashAt, OnDisk;
    forall i | 0 <= i < |objs| ensures OnFlashAt(flash, h.log[i], objs[i]) {
      assert StoredAt(h.live, h.log[i], objs[i]);
      StoredNonEmpty(h.live, h.log[i], objs[i]);
      StoredOnFlash(crc, size, flash, h, h.log[i], objs[i]);
    }
  }

  lemma NothingToSync(size: nat, minIo: nat, h: Hist, w: WBuf, es: seq<LS.SumEntry>)
    requires minIo > 0 && BufOk(size, minIo, h, w, es) && (w.avail == 0 || w.syncOffs == w.used)
    ensures h.synced == h.log && AllSynced(h)
  {
    hide Layout, LS.SumAll, Recs;
    forall l | l in h.live ensures h.live[l] == EMPTY_LEB || OnDisk(h, l) {
      if !(l == w.lnum && w.avail > 0) {
        assert OnDisk(h, l);
      }
    }
  }

  /** Synchronising keeps the log, the stored objects and the set of erase-blocks. */
  lemma SyncKeeps(h: Hist, l: nat, b: Leb, close: bool, objs: seq<seq<byte>>, lebCnt: nat, used: seq<bool>, nbFree: int)
    requires l in h.live && Layout(h.live[l].items) <= Layout(b.items) && DataOk(h.live, h.log, objs)
    requires FreeOk(lebCnt, used, nbFree, h.live) && forall k :: k in h.live && k != l ==> OnDisk(h, k)
    ensures var h' := Synced(h, l, b, close);
            && DataOk(h'.live, h'.log, objs) && FreeOk(lebCnt, used, nbFree, h'.live) && AllSynced(h')
            && h'.log == h'.synced == h.log && h'.live.Keys == h.live.Keys
  {
    hide Layout, DataOk;
    var h' := Synced(h, l, b, close);
    DataKept(h.live, l, b, h.log, objs);
    assert h'.live.Keys == h.live.Keys;
    assert |h'.live| == |h'.live.Keys| && |h.live| == |h.live.Keys|;
    forall k | k in h'.live ensures OnDisk(h', k) {
      if k != l { assert OnDisk(h, k); }
    }
  }

  lemma BoundKept(h: Hist, w: WBuf, h': Hist, w': WBuf, sq: nat, sq': nat)
    requires OpenBound(h, w, sq) && sq <= sq' && w.avail > 0 && w'.lnum == w.lnum && w.lnum in h.live
    requires w.lnum in h'.live
    requires Recs(w.lnum, h'.live[w.lnum]) == Recs(w.lnum, h.live[w.lnum])
    ensures OpenBound(h', w', sq')
  {
    hide Recs;
  }

  lemma BoundLater(h: Hist, w: WBuf, sq: nat, sq': nat)
    requires OpenBound(h, w, sq) && sq <= sq'
    ensures OpenBound(h, w, sq')
  {
    hide Recs;
  }

  // ---- the numbers of the superblock ------------------------------------------------------------------------

  const FIRST_SQNUM: nat := 1
  const SUPER_SZ: nat := 120

  /** The number a mount goes on from, when `super` is that of the newest super object. */
  function RestartNumber(super: nat): (n: nat)
    ensures if super <= 1 then n == 1 else n == super + 1
  {
    if FIRST_SQNUM < super then super + 1 else FIRST_SQNUM
  }

  /** `super` is the number of the newest super object on flash, `mounted` that of the one found when
      mounting. Nothing has been handed out since then unless the current number shows it. */
  predicate SuperOk(super: nat, mounted: nat, sqnum: nat, synced: bool) {
    && mounted <= super <= sqnum && mounted + 1 <= sqnum && FIRST_SQNUM < super
    && (mounted + 1 == sqnum ==> synced && super == mounted)
  }
}
