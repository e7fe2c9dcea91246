/** How the history of the object store changes: a new erase-block, padding, a transaction, and a
    commit to flash each keep the invariant. */
module StoreSteps {
  import opened ObjectId
  import opened LogIndex
  import LS = LogSummary
  import opened ObjFormat
  import opened SumFormat
  import opened LebModel
  import opened StoreModel
  import T = Transactions

  lemma AllRecsUpdate(v: Lebs, l: nat, b: Leb)
    ensures AllRecs(v[l := b]) == AllRecs(v - {l}) + Members(Recs(l, b))
    ensures l in v ==> AllRecs(v) == AllRecs(v - {l}) + Members(Recs(l, v[l]))
    ensures l !in v ==> AllRecs(v) == AllRecs(v - {l})
  {
    var v' := v[l := b];
    forall r | r in AllRecs(v') ensures r in AllRecs(v - {l}) + Members(Recs(l, b)) {
      var k :| k in v' && r in Recs(k, v'[k]);
      if k != l { assert k in v - {l} && r in Recs(k, (v - {l})[k]); }
    }
    forall r | r in AllRecs(v - {l}) ensures r in AllRecs(v') && r in AllRecs(v) {
      var k :| k in v - {l} && r in Recs(k, (v - {l})[k]);
      assert k in v' && r in Recs(k, v'[k]);
    }
    forall r | r in Recs(l, b) ensures r in AllRecs(v') {
      assert l in v' && r in Recs(l, v'[l]);
    }
    forall r | r in AllRecs(v) ensures r in AllRecs(v - {l}) || (l in v && r in Recs(l, v[l])) {
      var k :| k in v && r in Recs(k, v[k]);
      if k != l { assert k in v - {l} && r in Recs(k, (v - {l})[k]); }
    }
  }

  lemma LiveUpdated(crc: Crc, size: nat, live: Lebs, l: nat, b: Leb)
    requires LiveOk(crc, size, live) && Fits(crc, size, l, b)
    ensures LiveOk(crc, size, live[l := b])
  {
    var live' := live[l := b];
    forall k | k in live' ensures Fits(crc, size, k, live'[k]) {
      if k != l { assert Fits(crc, size, k, live[k]); }
    }
  }

  lemma FlashUpdated(crc: Crc, size: nat, flash: Flash, disk: Lebs, closed: set<nat>, l: nat, leb: seq<byte>, b: Leb,
                     close: bool)
    requires SUM_OFFS_SZ <= size && FlashOk(crc, size, flash, disk, closed) && OneOk(crc, size, leb, l, b, close)
    requires l !in closed
    ensures FlashOk(crc, size, flash[l := leb], disk[l := b], if close then closed + {l} else closed)
  {
    var closed' := if close then closed + {l} else closed;
    forall k | k in disk[l := b] ensures OneOk(crc, size, flash[l := leb][k], k, disk[l := b][k], k in closed') {
      if k != l { assert OneOk(crc, size, flash[k], k, disk[k], k in closed); }
    }
  }

  lemma LogGrows(h: Hist, l: nat, b: Leb, rs: seq<Rec>)
    requires LogOk(h)
    requires Recs(l, b) == (if l in h.live then Recs(l, h.live[l]) else []) + rs
    ensures LogOk(h.(live := h.live[l := b], log := h.log + rs))
  {
    AllRecsUpdate(h.live, l, b);
    MembersAppend(h.log, rs);
    MembersAppend(if l in h.live then Recs(l, h.live[l]) else [], rs);
  }

  /** Replacing one erase-block that is not closed, with `rs` as its new records. */
  lemma LiveChanged(crc: Crc, size: nat, flash: Flash, h: Hist, l: nat, b: Leb, rs: seq<Rec>)
    requires HistOk(crc, size, flash, h) && l !in h.closed && Fits(crc, size, l, b)
    requires Recs(l, b) == (if l in h.live then Recs(l, h.live[l]) else []) + rs
    ensures HistOk(crc, size, flash, h.(live := h.live[l := b], log := h.log + rs))
  {
    LiveUpdated(crc, size, h.live, l, b);
    LogGrows(h, l, b, rs);
  }

  /** All that was written to erase-block `k` is on flash. */
  ghost predicate OnDisk(h: Hist, k: nat) {
    k in h.live && k in h.disk && h.disk[k] == h.live[k]
  }

  /** Writing one erase-block to flash; all others are there already. */
  lemma Committed(crc: Crc, size: nat, flash: Flash, h: Hist, l: nat, leb: seq<byte>, close: bool)
    requires HistOk(crc, size, flash, h) && l in h.live && l !in h.closed
    requires forall k :: k in h.live && k != l ==> OnDisk(h, k)
    requires OneOk(crc, size, leb, l, h.live[l], close)
    ensures HistOk(crc, size, flash[l := leb],
                   h.(disk := h.disk[l := h.live[l]], closed := if close then h.closed + {l}
                      else h.closed, synced := h.log))
    ensures h.disk[l := h.live[l]] == h.live
  {
    FlashUpdated(crc, size, flash, h.disk, h.closed, l, leb, h.live[l], close);
    assert h.disk[l := h.live[l]] == h.live;
  }

  // ---- padding ------------------------------------------------------------------------------------------

  /** Padding: a run of pad bytes, or a padding object when there is room for a header. */
  ghost predicate IsPad(crc: Crc, p: seq<byte>) {
    && |p| % OBJ_PADDING == 0
    && if |p| < CH_SZ then p == Bytes(PAD_BYTE, |p|)
       else Sealed(crc, p) && TypeOf(p) == PAD_TYPE && TransOf(p) == T.TRANS_ATOM
  }

  function Padded(b: Leb, p: seq<byte>): Leb {
    if |p| < CH_SZ then AddGap(b, |p|) else AddAtom(b, p)
  }

  lemma PaddedOk(crc: Crc, l: nat, b: Leb, p: seq<byte>)
    requires LebOk(crc, b) && b.part == [] && IsPad(crc, p)
    ensures LebOk(crc, Padded(b, p)) && Recs(l, Padded(b, p)) == Recs(l, b)
    ensures Layout(Padded(b, p).items) == Layout(b.items) + p && Extends(b, Padded(b, p))
  {
    hide LebOk, Layout, RecsOf, T.Flatten;
    if |p| < CH_SZ {
      GapAdded(crc, b, |p|);
    } else {
      AtomAdded(crc, b, p);
      AtomRecs(l, b, p);
    }
  }

  /** `b'` is `b` with more written behind it. */
  ghost predicate Extends(b: Leb, b': Leb) {
    b.items <= b'.items && b.groups <= b'.groups && b.part == b'.part == []
  }

  lemma ExtendsTransitive(a: Leb, b: Leb, c: Leb)
    requires Extends(a, b) && Extends(b, c)
    ensures Extends(a, c)
  {
  }

  // ---- the summary ----------------------------------------------------------------------------------------

  /** A summary object that holds `es` and is to be written at `offs`. */
  ghost predicate IsSum(crc: Crc, o: seq<byte>, es: seq<LS.SumEntry>, offs: nat) {
    && offs < TWO32 && |es| < TWO32 && Sealed(crc, o) && TypeOf(o) == SUM_TYPE && TransOf(o) == T.TRANS_ATOM
    && exists gap :: o[24..] == SumTail(es, offs, gap)
  }

  /** Padding and a summary added to `b`. */
  function Finished(b: Leb, p: seq<byte>, o: seq<byte>): Leb {
    AddAtom(Padded(b, p), o)
  }

  lemma SummaryAdded(crc: Crc, l: nat, b: Leb, p: seq<byte>, o: seq<byte>, es: seq<LS.SumEntry>, offs: nat)
    requires LebOk(crc, b) && b.part == [] && IsPad(crc, p) && IsSum(crc, o, es, offs)
    ensures LebOk(crc, Finished(b, p, o)) && Recs(l, Finished(b, p, o)) == Recs(l, b)
    ensures Layout(Finished(b, p, o).items) == Layout(b.items) + p + o && Extends(b, Finished(b, p, o))
  {
    hide LebOk, Layout, Padded, IsPad, SumTail, Recs;
    PaddedOk(crc, l, b, p);
    AtomAdded(crc, Padded(b, p), o);
    AtomRecs(l, Padded(b, p), o);
  }

  // ---- summary entries fit their fields ---------------------------------------------------------------------

  ghost predicate FieldsOk(r: Rec) {
    r.addr.sqnum < TWO64 && r.addr.len < TWO32 && r.addr.offs < LS.DEL_FLAG
  }

  lemma {:induction false} RecordFields(es: seq<LS.SumEntry>, r: Rec, i: nat)
    requires i <= |es| && FieldsOk(r) && forall e :: e in es ==> EntryOk(e)
    ensures forall e :: e in LS.Record(es, r, i) ==> EntryOk(e)
    decreases |es| - i
  {
    if i < |es| && LS.Meet(es[i], r).Pass? {
      RecordFields(es, r, i + 1);
    }
  }

  lemma {:induction false} EntriesFit(rs: seq<Rec>)
    requires forall r :: r in rs ==> FieldsOk(r)
    ensures forall e :: e in LS.SumAll(rs) ==> EntryOk(e)
  {
    if rs != [] {
      EntriesFit(rs[..|rs| - 1]);
      RecordFields(LS.SumAll(rs[..|rs| - 1]), rs[|rs| - 1], 0);
    }
  }

  // ---- what is on flash after a commit ------------------------------------------------------------------------

  lemma ErasedEnd(crc: Crc, leb: seq<byte>, l: nat, b: Leb)
    requires OnFlash(leb, b) && |Layout(b.items)| + SUM_OFFS_SZ <= |leb| <= LS.DEL_FLAG
    ensures ReadSummary(crc, leb) == NoSummary
  {
    WordOf(leb[|leb| - 4..|leb| - 4 + 4]);
  }

  /** A full erase-block that ends with the summary of its records is read through that summary. */
  lemma ClosedReadable(crc: Crc, leb: seq<byte>, body: seq<byte>, es: seq<LS.SumEntry>, o: seq<byte>)
    requires (forall e :: e in es ==> EntryOk(e)) && |es| < TWO32
    requires IsSum(crc, o, es, |body|) && leb == body + o
    ensures |leb| >= SUM_OFFS_SZ && ReadSummary(crc, leb) == Entries(es)
  {
    hide SumTail, ReadSummary;
    Split(body, o);
    assert leb[|body|..|body| + |o|] == leb[|body|..];
    var gap :| o[24..] == SumTail(es, |body|, gap);
    SummaryReadBack(crc, leb, es, |body|, gap, o);
  }

  // ---- the write buffer -----------------------------------------------------------------------------------------

  /** The current erase-block: its number (0 for none), the buffer, and how much of it is used, free
      and already on flash. */
  datatype WBuf = WBuf(lnum: nat, buf: seq<byte>, used: nat, avail: nat, syncOffs: nat)

  predicate IoOk(size: nat, minIo: nat) {
    minIo > 0 && minIo % OBJ_PADDING == 0 && size % minIo == 0 && SumSize(0) <= size <= LS.DEL_FLAG
  }

  /** How many records of erase-block `l` are on flash. */
  ghost function OnFlashCount(h: Hist, l: nat): nat {
    if l in h.disk then |Recs(l, h.disk[l])| else 0
  }

  /** The records of the current erase-block are the end of the log, and those of them that are on
      flash the end of what is synchronised. */
  ghost predicate TailOk(h: Hist, l: nat)
    requires l in h.live
  {
    var rs := Recs(l, h.live[l]);
    && |rs| <= |h.log| && h.log[|h.log| - |rs|..] == rs
    && (forall r :: r in h.log[..|h.log| - |rs|] ==> r.addr.lnum != l)
    && OnFlashCount(h, l) <= |rs| && h.synced == h.log[..|h.log| - |rs| + OnFlashCount(h, l)]
  }

  ghost predicate OpenOk(minIo: nat, h: Hist, w: WBuf, es: seq<LS.SumEntry>)
    requires minIo > 0 && w.lnum in h.live && w.used <= |w.buf|
  {
    && w.used % OBJ_PADDING == 0 && w.syncOffs <= w.used && w.syncOffs % minIo == 0 && w.lnum !in h.closed
    && es == LS.SumAll(Recs(w.lnum, h.live[w.lnum])) && w.avail >= SumSize(|es|)
    && h.live[w.lnum].part == [] && TailOk(h, w.lnum)
    && (w.lnum in h.disk <==> w.syncOffs > 0)
    && (w.lnum in h.disk ==>
          Layout(h.disk[w.lnum].items) == w.buf[..w.syncOffs] && Extends(h.disk[w.lnum], h.live[w.lnum]))
    && (w.syncOffs == w.used ==> h.synced == h.log && (h.live[w.lnum] == EMPTY_LEB || OnDisk(h, w.lnum)))
  }

  /** The write buffer agrees with the history; space for the summary is kept free while the
      erase-block is open, and everything is on flash once it is closed. */
  ghost predicate BufOk(size: nat, minIo: nat, h: Hist, w: WBuf, es: seq<LS.SumEntry>)
    requires minIo > 0
  {
    && |w.buf| == size
    && (w.lnum == 0 ==> w.avail == 0)
    && (w.lnum != 0 ==>
          w.used + w.avail == size && w.lnum in h.live && w.buf[..w.used] == Layout(h.live[w.lnum].items))
    && (forall l :: l in h.live && !(l == w.lnum && w.avail > 0) ==> OnDisk(h, l))
    && (w.avail > 0 ==> OpenOk(minIo, h, w, es))
    && (w.avail == 0 ==> es == [] && w.syncOffs == w.used && h.synced == h.log && h.disk == h.live)
  }

  ghost predicate Known(r: Rec) {
    r.addr.sqnum > 0 && IndexedType(r.id)
  }

  ghost predicate KnownLog(log: seq<Rec>) {
    forall r :: r in log ==> Known(r)
  }

  /** The numbers in the current erase-block have all been handed out since it was opened. */
  ghost predicate OpenBound(h: Hist, w: WBuf, sqnum: nat) {
    w.avail > 0 && w.lnum in h.live ==> forall r :: r in Recs(w.lnum, h.live[w.lnum]) ==> r.addr.sqnum <= sqnum
  }

  /** What a commit leaves in the erase-block. */
  lemma CommitBytes(size: nat, leb: seq<byte>, buf: seq<byte>, used: nat, syncOffs: nat, b: Leb)
    requires |leb| == |buf| == size && syncOffs <= used <= size && leb[..syncOffs] == buf[..syncOffs]
    requires (forall i :: syncOffs <= i < size ==> leb[i] == 0xff) && buf[..used] == Layout(b.items)
    ensures |leb[..syncOffs] + buf[syncOffs..used] + leb[used..]| == size
    ensures OnFlash(leb[..syncOffs] + buf[syncOffs..used] + leb[used..], b)
  {
    var leb' := leb[..syncOffs] + buf[syncOffs..used] + leb[used..];
    assert leb'[..used] == buf[..used];
  }
}
