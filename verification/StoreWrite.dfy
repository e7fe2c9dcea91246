/** Writing a transaction: its records enter the log, its objects the current erase-block. */
module StoreWrite {
  import opened ObjectId
  import opened LogIndex
  import LS = LogSummary
  import opened ObjFormat
  import opened SumFormat
  import opened LebModel
  import opened StoreModel
  import opened StoreSteps
  import opened StoreSync
  import opened Restart
  import T = Transactions

  // ---- the objects behind the records ---------------------------------------------------------------

  /** `r` is the record of `o`, and the bytes of `o` are where `r` says. */
  ghost predicate StoredAt(live: Lebs, r: Rec, o: seq<byte>) {
    && HasId(o) && r.addr.lnum in live && r == RecAt(r.addr.lnum, (r.addr.offs, o))
    && Within(Layout(live[r.addr.lnum].items), r.addr.offs, o)
  }

  predicate Within(s: seq<byte>, offs: nat, o: seq<byte>) {
    offs + |o| <= |s| && s[offs..offs + |o|] == o
  }

  /** The log of records and the log of objects agree. */
  ghost predicate DataOk(live: Lebs, log: seq<Rec>, objs: seq<seq<byte>>) {
    |log| == |objs| && forall i :: 0 <= i < |log| ==> StoredAt(live, log[i], objs[i])
  }

  lemma WithinLonger(s: seq<byte>, s': seq<byte>, offs: nat, o: seq<byte>)
    requires Within(s, offs, o) && s <= s'
    ensures Within(s', offs, o)
  {
    assert s'[..|s|] == s;
    assert s'[offs..offs + |o|] == s'[..|s|][offs..offs + |o|];
  }

  /** What was stored stays stored when an erase-block grows. */
  lemma DataKept(live: Lebs, l: nat, b: Leb, log: seq<Rec>, objs: seq<seq<byte>>)
    requires DataOk(live, log, objs) && (l in live ==> Layout(live[l].items) <= Layout(b.items))
    ensures DataOk(live[l := b], log, objs)
  {
    hide Layout, HasId, RecAt, Within;
    forall i | 0 <= i < |log| ensures StoredAt(live[l := b], log[i], objs[i]) {
      assert StoredAt(live, log[i], objs[i]);
      if log[i].addr.lnum == l {
        WithinLonger(Layout(live[l].items), Layout(b.items), log[i].addr.offs, objs[i]);
      }
    }
  }

  lemma DataAppend(live: Lebs, log: seq<Rec>, objs: seq<seq<byte>>, rs: seq<Rec>, os: seq<seq<byte>>)
    requires DataOk(live, log, objs) && DataOk(live, rs, os)
    ensures DataOk(live, log + rs, objs + os)
  {
    hide StoredAt;
    forall i | 0 <= i < |log + rs| ensures StoredAt(live, (log + rs)[i], (objs + os)[i]) {
      if i >= |log| {
        assert StoredAt(live, rs[i - |log|], os[i - |log|]);
      }
    }
  }

  // ---- the records of a transaction -------------------------------------------------------------------

  /** The objects can be written with the sequence numbers after `sqnum`. */
  ghost predicate TransOk(crc: Crc, os: seq<seq<byte>>, sqnum: nat) {
    && StampedAs(crc, os)
    && forall i :: 0 <= i < |os| ==> Numbered(os[i], sqnum + 1 + i)
  }

  ghost predicate Numbered(o: seq<byte>, sq: nat) {
    HasId(o) && SqnumOf(o) == sq && IndexedType(IdOf(o))
  }

  lemma NoRecs(l: nat)
    ensures RecsOf(l, []) == []
  {
  }

  lemma TransRecsSnoc(l: nat, os: seq<seq<byte>>, at: nat)
    requires os != [] && HasId(os[|os| - 1])
    ensures var n := |os| - 1;
            RecsOf(l, Locate(os, at)) == RecsOf(l, Locate(os[..n], at)) + [RecAt(l, (at + |Concat(os[..n])|, os[n]))]
  {
    hide HasId, RecAt, Concat;
    var n := |os| - 1;
    var ls := Locate(os, at);
    assert ls[..|ls| - 1] == Locate(os[..n], at);
  }

  lemma {:induction false} TransRecs(l: nat, os: seq<seq<byte>>, at: nat)
    requires forall i :: 0 <= i < |os| ==> HasId(os[i])
    ensures var rs := RecsOf(l, Locate(os, at));
            |rs| == |os| && forall i :: 0 <= i < |os| ==> rs[i] == RecAt(l, (at + |Concat(os[..i])|, os[i]))
    decreases |os|
  {
    hide HasId, RecAt, Concat, Locate, RecsOf;
    if os != [] {
      var n := |os| - 1;
      TransRecs(l, os[..n], at);
      TransRecsSnoc(l, os, at);
      var rs := RecsOf(l, Locate(os, at));
      forall i | 0 <= i < |os| ensures rs[i] == RecAt(l, (at + |Concat(os[..i])|, os[i])) {
        if i < n {
          assert os[..n][..i] == os[..i] && os[..n][i] == os[i];
        }
      }
    } else {
      assert Locate(os, at) == [];
      NoRecs(l);
    }
  }

  lemma {:induction false} ConcatPrefix(os: seq<seq<byte>>, i: nat)
    requires i < |os|
    ensures Within(Concat(os), |Concat(os[..i])|, os[i])
    decreases |os|
  {
    var n := |os| - 1;
    if i < n {
      ConcatPrefix(os[..n], i);
      assert os[..n][..i] == os[..i];
      WithinLonger(Concat(os[..n]), Concat(os), |Concat(os[..i])|, os[i]);
    }
  }

  lemma {:induction false} ConcatAligned(crc: Crc, os: seq<seq<byte>>)
    requires forall i :: 0 <= i < |os| ==> Sealed(crc, os[i])
    ensures |Concat(os)| % OBJ_PADDING == 0 && |Concat(os)| >= CH_SZ * |os|
    decreases |os|
  {
    if os != [] {
      ConcatAligned(crc, os[..|os| - 1]);
    }
  }

  lemma WithinAfter(a: seq<byte>, s: seq<byte>, offs: nat, o: seq<byte>)
    requires Within(s, offs, o)
    ensures Within(a + s, |a| + offs, o)
  {
    Shifted(a, s, offs, |o|);
  }

  /** The objects of a transaction are where their records say. */
  lemma StoredThere(live: Lebs, l: nat, offs: nat, o: seq<byte>)
    requires l in live && HasId(o) && Within(Layout(live[l].items), offs, o)
    ensures StoredAt(live, RecAt(l, (offs, o)), o)
  {
    hide Layout, HasId, Within;
  }

  lemma TransRecAt(l: nat, os: seq<seq<byte>>, at: nat, i: nat)
    requires (forall i :: 0 <= i < |os| ==> HasId(os[i])) && i < |os|
    ensures var rs := RecsOf(l, Locate(os, at));
            |rs| == |os| && rs[i] == RecAt(l, (at + |Concat(os[..i])|, os[i]))
  {
    hide HasId, RecAt, Concat, Locate, RecsOf;
    TransRecs(l, os, at);
  }

  lemma TransRecCount(l: nat, os: seq<seq<byte>>, at: nat)
    requires forall i :: 0 <= i < |os| ==> HasId(os[i])
    ensures |RecsOf(l, Locate(os, at))| == |os|
  {
    hide HasId, RecAt, Concat, Locate, RecsOf;
    TransRecs(l, os, at);
  }

  /** The objects `os` come last, behind the bytes `pre`. */
  predicate EndsWith(s: seq<byte>, pre: seq<byte>, os: seq<seq<byte>>) {
    s == pre + Concat(os)
  }

  lemma TransPlace(s: seq<byte>, pre: seq<byte>, os: seq<seq<byte>>, i: nat)
    requires EndsWith(s, pre, os) && i < |os|
    ensures Within(s, |pre| + |Concat(os[..i])|, os[i])
  {
    hide Concat, Within;
    ConcatPrefix(os, i);
    WithinAfter(pre, Concat(os), |Concat(os[..i])|, os[i]);
  }

  lemma TransStored(live: Lebs, l: nat, at: nat, os: seq<seq<byte>>, rs: seq<Rec>, i: nat)
    requires l in live && rs == RecsOf(l, Locate(os, at)) && i < |os| && forall i :: 0 <= i < |os| ==> HasId(os[i])
    requires Within(Layout(live[l].items), at + |Concat(os[..i])|, os[i])
    ensures |rs| == |os| && StoredAt(live, rs[i], os[i])
  {
    hide Layout, Concat, HasId, RecsOf, Locate, RecAt, StoredAt, Within;
    TransRecAt(l, os, at, i);
    StoredThere(live, l, at + |Concat(os[..i])|, os[i]);
  }

  lemma TransData(live: Lebs, l: nat, pre: seq<byte>, os: seq<seq<byte>>, rs: seq<Rec>)
    requires l in live && EndsWith(Layout(live[l].items), pre, os) && rs == RecsOf(l, Locate(os, |pre|))
    requires forall i :: 0 <= i < |os| ==> HasId(os[i])
    ensures DataOk(live, rs, os)
  {
    hide Layout, EndsWith, Concat, HasId, RecsOf, Locate, StoredAt, Within;
    TransRecCount(l, os, |pre|);
    forall i | 0 <= i < |os| ensures StoredAt(live, rs[i], os[i]) {
      TransPlace(Layout(live[l].items), pre, os, i);
      TransStored(live, l, |pre|, os, rs, i);
    }
  }

  lemma TransBound(crc: Crc, l: nat, os: seq<seq<byte>>, at: nat, sqnum: nat)
    requires TransOk(crc, os, sqnum)
    ensures var rs := RecsOf(l, Locate(os, at));
            && Rising(rs)
            && forall r :: r in rs ==> sqnum < r.addr.sqnum <= sqnum + |os| && Known(r) && r.addr.lnum == l
  {
    hide StampedAs, RecsOf, Locate, Concat;
    assert forall i :: 0 <= i < |os| ==> Numbered(os[i], sqnum + 1 + i) && HasId(os[i]);
    TransRecs(l, os, at);
    var rs := RecsOf(l, Locate(os, at));
    forall i | 0 <= i < |os| ensures rs[i].addr.sqnum == sqnum + 1 + i && IndexedType(rs[i].id) {
      assert Numbered(os[i], sqnum + 1 + i);
    }
  }

  // ---- the step ---------------------------------------------------------------------------------------

  /** The history after transaction `os` was written to erase-block `l` at `at`. */
  function Wrote(h: Hist, l: nat, os: seq<seq<byte>>, at: nat): Hist
    requires l in h.live
  {
    h.(live := h.live[l := AddTrans(h.live[l], os)], log := h.log + RecsOf(l, Locate(os, at)))
  }

  lemma TransFits(crc: Crc, size: nat, flash: Flash, h: Hist, l: nat, sqnum: nat, os: seq<seq<byte>>, at: nat)
    requires HistOk(crc, size, flash, h) && l in h.live && l !in h.closed && h.live[l].part == []
    requires forall r :: r in Recs(l, h.live[l]) ==> r.addr.sqnum <= sqnum
    requires TransOk(crc, os, sqnum) && T.Proper(os) && at == |Layout(h.live[l].items)| && at + |Concat(os)| <= size
    ensures HistOk(crc, size, flash, Wrote(h, l, os, at))
    ensures Recs(l, AddTrans(h.live[l], os)) == Recs(l, h.live[l]) + RecsOf(l, Locate(os, at))
    ensures Layout(AddTrans(h.live[l], os).items) == Layout(h.live[l].items) + Concat(os)
  {
    hide Layout, Concat, AddTrans, Locate, RecsOf, LiveOk, FlashOk, LogOk, LebOk, Rising, StampedAs, Recs;
    var b := AddTrans(h.live[l], os);
    var rs := RecsOf(l, Locate(os, at));
    TheLeb(crc, size, flash, h, l);
    TransAdded(crc, h.live[l], os);
    TransRecords(l, h.live[l], os);
    TransBound(crc, l, os, at, sqnum);
    RunRises(Recs(l, h.live[l]), rs, sqnum);
    LiveChanged(crc, size, flash, h, l, b, rs);
  }

  lemma RunRises(a: seq<Rec>, rs: seq<Rec>, sqnum: nat)
    requires Rising(a) && Rising(rs)
    requires (forall r :: r in a ==> r.addr.sqnum <= sqnum) && (forall r :: r in rs ==> sqnum < r.addr.sqnum)
    ensures Rising(a + rs)
  {
    forall i, j | 0 <= i < j < |a + rs| ensures (a + rs)[i].addr.sqnum < (a + rs)[j].addr.sqnum {
      if i < |a| { assert a[i] in a; }
      if j >= |a| { assert rs[j - |a|] in rs; }
    }
  }

  lemma TailGrows(h: Hist, h': Hist, l: nat, b: Leb, rs: seq<Rec>)
    requires l in h.live && TailOk(h, l) && Recs(l, b) == Recs(l, h.live[l]) + rs
    requires h' == h.(live := h.live[l := b], log := h.log + rs)
    ensures TailOk(h', l)
  {
    hide Recs;
    var n, k := |h.log|, |Recs(l, h.live[l])|;
    Suffix(h.log, n - k, rs);
    assert h'.log[..n - k] == h.log[..n - k];
    assert h'.log[..n - k + OnFlashCount(h, l)] == h.log[..n - k + OnFlashCount(h, l)];
  }

  lemma Suffix(a: seq<Rec>, i: nat, b: seq<Rec>)
    requires i <= |a|
    ensures (a + b)[i..] == a[i..] + b
  {
  }

  /** The write buffer after a transaction that leaves room for the summary. */
  lemma WroteBuf(size: nat, minIo: nat, h: Hist, w: WBuf, es: seq<LS.SumEntry>, es': seq<LS.SumEntry>, h': Hist, b: Leb,
                 c: seq<byte>, rs: seq<Rec>)
    requires minIo > 0 && BufOk(size, minIo, h, w, es) && w.avail > 0
    requires h' == h.(live := h.live[w.lnum := b], log := h.log + rs)
    requires Layout(b.items) == Layout(h.live[w.lnum].items) + c && Extends(h.live[w.lnum], b)
    requires |c| > 0 && (w.used + |c|) % OBJ_PADDING == 0 && |c| + SumSize(|es'|) <= w.avail
    requires Recs(w.lnum, b) == Recs(w.lnum, h.live[w.lnum]) + rs && es' == LS.SumAll(Recs(w.lnum, b))
    ensures BufOk(size, minIo, h', Put(w, c), es')
  {
    hide Layout, Recs, Append, TailOk, Extends, LS.SumAll;
    Appended(w.buf, w.used, c);
    TailGrows(h, h', w.lnum, b, rs);
    ExtendsParts(h.live[w.lnum], b);
    if w.lnum in h.disk {
      ExtendsTransitive(h.disk[w.lnum], h.live[w.lnum], b);
    }
    forall l | l in h'.live && l != w.lnum ensures OnDisk(h', l) {
      assert OnDisk(h, l);
    }
  }

  lemma ExtendsParts(b: Leb, b': Leb)
    requires Extends(b, b')
    ensures b'.part == []
  {
  }

  lemma TransExtends(b: Leb, os: seq<seq<byte>>)
    requires b.part == []
    ensures Extends(b, AddTrans(b, os))
  {
    hide AsItems, Locate;
  }

  /** The whole effect of writing a transaction. */
  lemma WriteStep(crc: Crc, size: nat, minIo: nat, flash: Flash, h: Hist, w: WBuf, es: seq<LS.SumEntry>,
                  es': seq<LS.SumEntry>, sqnum: nat, sqnum': nat, objs: seq<seq<byte>>, os: seq<seq<byte>>)
    requires minIo > 0 && HistOk(crc, size, flash, h) && BufOk(size, minIo, h, w, es) && w.avail > 0
    requires OpenBound(h, w, sqnum) && KnownLog(h.log) && DataOk(h.live, h.log, objs)
    requires TransOk(crc, os, sqnum) && T.Proper(os) && sqnum + |os| <= sqnum'
    requires es' == LS.SumAll(Recs(w.lnum, h.live[w.lnum]) + RecsOf(w.lnum, Locate(os, w.used)))
    requires |Concat(os)| + SumSize(|es'|) <= w.avail
    ensures var h' := Wrote(h, w.lnum, os, w.used);
            && HistOk(crc, size, flash, h') && BufOk(size, minIo, h', Put(w, Concat(os)), es')
            && OpenBound(h', Put(w, Concat(os)), sqnum') && KnownLog(h'.log) && DataOk(h'.live, h'.log, objs + os)
  {
    hide Layout, Concat, AddTrans, Locate, RecsOf, LiveOk, FlashOk, LogOk, LebOk, StampedAs, Append, Recs, StoredAt,
         DataOk, TailOk, Extends, TransOk, SumSize, LS.SumAll, KnownLog;
    var l, b := w.lnum, AddTrans(h.live[w.lnum], os);
    var rs := RecsOf(l, Locate(os, w.used));
    UsedIs(size, minIo, h, w, es);
    TransFits(crc, size, flash, h, l, sqnum, os, w.used);
    TransSize(crc, os, sqnum, w.used);
    TransExtends(h.live[l], os);
    WroteBuf(size, minIo, h, w, es, es', Wrote(h, l, os, w.used), b, Concat(os), rs);
    WroteBound(crc, h, l, os, w.used, sqnum, sqnum', b);
    WroteData(crc, h, l, os, w.used, sqnum, objs, b);
  }

  lemma UsedIs(size: nat, minIo: nat, h: Hist, w: WBuf, es: seq<LS.SumEntry>)
    requires minIo > 0 && BufOk(size, minIo, h, w, es) && w.avail > 0
    ensures w.lnum in h.live && w.lnum !in h.closed && w.used == |Layout(h.live[w.lnum].items)|
    ensures w.used + w.avail == size
    ensures w.used % OBJ_PADDING == 0 && h.live[w.lnum].part == []
  {
    hide Layout;
  }

  lemma TransSize(crc: Crc, os: seq<seq<byte>>, sqnum: nat, used: nat)
    requires TransOk(crc, os, sqnum) && os != [] && used % OBJ_PADDING == 0
    ensures |Concat(os)| > 0 && (used + |Concat(os)|) % OBJ_PADDING == 0
  {
    hide Concat, Sealed;
    ConcatAligned(crc, os);
  }

  lemma WroteBound(crc: Crc, h: Hist, l: nat, os: seq<seq<byte>>, at: nat, sqnum: nat, sqnum': nat, b: Leb)
    requires l in h.live && KnownLog(h.log) && TransOk(crc, os, sqnum) && sqnum + |os| <= sqnum'
    requires forall r :: r in Recs(l, h.live[l]) ==> r.addr.sqnum <= sqnum
    requires Recs(l, b) == Recs(l, h.live[l]) + RecsOf(l, Locate(os, at))
    ensures KnownLog(Wrote(h, l, os, at).log) && forall r :: r in Recs(l, b) ==> r.addr.sqnum <= sqnum'
  {
    hide Locate, RecsOf, TransOk, Recs, AddTrans;
    TransBound(crc, l, os, at, sqnum);
  }

  /** New records keep the order of the log if it was in order and the numbers were above it. */
  lemma WroteOrdered(crc: Crc, h: Hist, l: nat, os: seq<seq<byte>>, at: nat, sqnum: nat, sqnum': nat)
    requires l in h.live && TailOk(h, l) && (forall r :: r in Recs(l, h.live[l]) ==> r.addr.sqnum <= sqnum)
    requires InOrder(h.log) && RestartOk(sqnum, h.log) && TransOk(crc, os, sqnum) && sqnum + |os| <= sqnum'
    ensures var h' := Wrote(h, l, os, at); InOrder(h'.log) && RestartOk(sqnum', h'.log)
  {
    hide Locate, RecsOf, TransOk, Recs, AddTrans, InOrder, Rising;
    var rs := RecsOf(l, Locate(os, at));
    TransBound(crc, l, os, at, sqnum);
    forall r | r in rs ensures r !in h.log {
      if r in h.log { TailHolds(h, l, r); }
    }
    RestartKeeps(sqnum, h.log, rs);
    MembersAppend(h.log, rs);
  }

  lemma TailHolds(h: Hist, l: nat, r: Rec)
    requires l in h.live && TailOk(h, l) && r in h.log && r.addr.lnum == l
    ensures r in Recs(l, h.live[l])
  {
    hide Recs;
    var n := |h.log| - |Recs(l, h.live[l])|;
    assert h.log == h.log[..n] + h.log[n..];
  }

  lemma WroteData(crc: Crc, h: Hist, l: nat, os: seq<seq<byte>>, at: nat, sqnum: nat, objs: seq<seq<byte>>, b: Leb)
    requires l in h.live && DataOk(h.live, h.log, objs) && TransOk(crc, os, sqnum) && at == |Layout(h.live[l].items)|
    requires b == AddTrans(h.live[l], os) && Layout(b.items) == Layout(h.live[l].items) + Concat(os)
    ensures DataOk(Wrote(h, l, os, at).live, Wrote(h, l, os, at).log, objs + os)
  {
    hide Layout, Locate, RecsOf, Concat, DataOk, HasId, AddTrans;
    assert forall i :: 0 <= i < |os| ==> Numbered(os[i], sqnum + 1 + i) && HasId(os[i]);
    var live' := h.live[l := b];
    DataKept(h.live, l, b, h.log, objs);
    TransData(live', l, Layout(h.live[l].items), os, RecsOf(l, Locate(os, at)));
    DataAppend(live', h.log, objs, RecsOf(l, Locate(os, at)), os);
  }

  // ---- the summary while a transaction is recorded -------------------------------------------------------

  lemma SumSnoc(rs: seq<Rec>, r: Rec)
    ensures LS.SumAll(rs + [r]) == LS.Record(LS.SumAll(rs), r, 0)
  {
    assert (rs + [r])[..|rs + [r]| - 1] == rs;
  }

  lemma {:induction false} RecordGrows(es: seq<LS.SumEntry>, r: Rec, i: nat)
    requires i <= |es|
    ensures |LS.Record(es, r, i)| <= |es| + 1
    decreases |es| - i
  {
    if i < |es| && LS.Meet(es[i], r).Pass? {
      RecordGrows(es, r, i + 1);
    }
  }

  /** A transaction adds at most one entry per object. */
  lemma {:induction false} SumGrows(a: seq<Rec>, b: seq<Rec>)
    ensures |LS.SumAll(a + b)| <= |LS.SumAll(a)| + |b|
    decreases |b|
  {
    hide LS.SumAll, LS.Record;
    if b == [] {
      assert a + b == a;
    } else {
      var n := |b| - 1;
      SumGrows(a, b[..n]);
      assert a + b == (a + b[..n]) + [b[n]];
      SumSnoc(a + b[..n], b[n]);
      RecordGrows(LS.SumAll(a + b[..n]), b[n], 0);
    }
  }
}
