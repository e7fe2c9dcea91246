/** What the functions of the store machine guarantee: where a cut hurts, what is kept, and when a run goes on. */
module StoreEffects {
  import opened ObjectId
  import LS = LogSummary
  import opened ObjFormat
  import opened SumFormat
  import opened LebModel
  import opened LebCut
  import opened StoreSteps
  import opened StoreCut
  import opened StoreAlloc
  import opened StoreCommit
  import opened StoreStamp
  import opened StoreRead
  import opened StoreMachine
  import opened Pages
  import T = Transactions

  // ---- what a sync writes -----------------------------------------------------------------------------------

  /** A sync pads by a multiple of eight that fits. */
  lemma SyncPadOk(c: Config, k: Current, force: bool)
    requires ConfigOk(c) && k.Open? && CurOk(c, k)
    ensures SyncEnd(c, k, force) ==
            Used(k) + SyncPad(c, k, force) + if Closes(c, k, force) then SumSize(|SumEntries(k)|) else 0
    ensures 0 <= SyncPad(c, k, force) < TWO32 && SyncPad(c, k, force) % OBJ_PADDING == 0
    ensures Used(k) + SyncPad(c, k, force) < TWO32 && SumSize(|SumEntries(k)|) < TWO32
    ensures Used(k) <= SyncEnd(c, k, force) <= c.lebSize && SyncEnd(c, k, force) % c.minIo == 0
  {
    hide LebOk, Layout, Used, SyncOffs, SumEntries, SumSize, SumSizeWithExtra, Align, Extends;
    if Closes(c, k, force) {
      ClosePad(c.lebSize, c.minIo, Used(k), Avail(c, k), |SumEntries(k)|);
    } else {
      PadAmount(Used(k), c.minIo);
    }
  }

  /** The object that padding at `at` may be. */
  function PadObjs(at: nat, p: seq<byte>): seq<Located> {
    if |p| < CH_SZ then [] else [(at, p)]
  }

  function OneObj(at: nat, o: seq<byte>): seq<Located> {
    [(at, o)]
  }

  /** The padding and the summary that a sync writes. */
  ghost function SyncPadding(c: Config, k: Current, force: bool, sq: nat): seq<byte>
    requires c.minIo > 0 && k.Open?
  {
    PadOf(c.crc, SyncPad(c, k, force), sq + 1)
  }

  ghost function SyncSummary(c: Config, k: Current, force: bool, sq: nat): seq<byte>
    requires c.minIo > 0 && k.Open?
  {
    SumOf(c.crc, SumEntries(k), Used(k) + SyncPad(c, k, force), sq + SyncTakes(c, k, force))
  }

  /** The objects that a sync adds. */
  ghost function SyncAdds(c: Config, k: Current, force: bool, sq: nat): seq<Located>
    requires c.minIo > 0 && k.Open?
  {
    var pad := SyncPadding(c, k, force, sq);
    var pads := PadObjs(Used(k), pad);
    if Closes(c, k, force) then pads + OneObj(Used(k) + |pad|, SyncSummary(c, k, force, sq)) else pads
  }

  lemma CurFacts(c: Config, k: Current)
    requires k.Open? && CurOk(c, k)
    ensures LebOk(c.crc, k.leb) && LebOk(c.crc, k.disk) && k.leb.part == [] && Extends(k.disk, k.leb)
    ensures SyncOffs(k) <= Used(k)
  {
    hide LebOk, Extends, Layout;
  }

  /** Objects that are transactions of their own. */
  function Singles(xs: seq<Located>): seq<seq<Located>> {
    if xs == [] then [] else [[xs[0]]] + Singles(xs[1..])
  }

  /** `b'` is `b` with the objects `xs` added. */
  ghost predicate Adds(crc: Crc, l: nat, b: Leb, b': Leb, xs: seq<Located>) {
    && LebOk(crc, b') && Extends(b, b') && Recs(l, b') == Recs(l, b)
    && Objs(b') == Objs(b) + xs && b'.groups == b.groups + Singles(xs)
  }

  lemma PadAdds(crc: Crc, l: nat, b: Leb, p: seq<byte>)
    requires LebOk(crc, b) && b.part == [] && IsPad(crc, p)
    ensures Adds(crc, l, b, Padded(b, p), PadObjs(|Layout(b.items)|, p))
    ensures |Layout(Padded(b, p).items)| == |Layout(b.items)| + |p|
  {
    hide LebOk, Layout, Recs, Extends, IsPad, Blobs;
    PaddedOk(crc, l, b, p);
    if |p| < CH_SZ {
      BlobsSnoc(b.items, Gap(|p|), 0);
      assert b.groups + [] == b.groups && Objs(b) + [] == Objs(b);
    } else {
      BlobsSnoc(b.items, Blob(p), 0);
      var x: Located := (|Layout(b.items)|, p);
      assert [x][1..] == [] && Singles([x]) == [[x]];
    }
  }

  lemma SumAdds(crc: Crc, l: nat, b: Leb, p: seq<byte>, o: seq<byte>, es: seq<LS.SumEntry>)
    requires LebOk(crc, b) && b.part == [] && IsPad(crc, p) && IsSum(crc, o, es, |Layout(b.items)| + |p|)
    ensures Adds(crc, l, b, Finished(b, p, o), PadObjs(|Layout(b.items)|, p) + OneObj(|Layout(b.items)| + |p|, o))
    ensures |Layout(Finished(b, p, o).items)| == |Layout(b.items)| + |p| + |o|
  {
    hide LebOk, Layout, Recs, Extends, IsPad, IsSum, Padded, Blobs;
    var n := |Layout(b.items)|;
    PadAdds(crc, l, b, p);
    SummaryAdded(crc, l, b, p, o, es, n + |p|);
    BlobsSnoc(Padded(b, p).items, Blob(o), 0);
    var xs := PadObjs(n, p);
    SinglesSnoc(xs, (n + |p|, o));
    assert Objs(b) + xs + [(n + |p|, o)] == Objs(b) + (xs + [(n + |p|, o)]);
  }

  lemma {:induction false} SinglesSnoc(xs: seq<Located>, x: Located)
    ensures Singles(xs + [x]) == Singles(xs) + [[x]]
  {
    if xs == [] {
      assert [x][1..] == [];
    } else {
      assert (xs + [x])[1..] == xs[1..] + [x];
      SinglesSnoc(xs[1..], x);
    }
  }

  lemma SyncLebPage(c: Config, k: Current, force: bool, sq: nat)
    requires c.minIo > 0 && k.Open? && !Closes(c, k, force) && LebOk(c.crc, k.leb) && k.leb.part == []
    requires IsPad(c.crc, SyncPadding(c, k, force, sq))
    ensures Adds(c.crc, k.lnum, k.leb, SyncLeb(c, k, force, sq), SyncAdds(c, k, force, sq))
    ensures |Layout(SyncLeb(c, k, force, sq).items)| == Used(k) + |SyncPadding(c, k, force, sq)|
  {
    hide LebOk, Layout, Recs, SumSize, PadOf, Padded, IsPad, Adds, SumEntries, SyncPad, Closes, PadObjs;
    PadAdds(c.crc, k.lnum, k.leb, SyncPadding(c, k, force, sq));
  }

  lemma SyncLebClosing(c: Config, k: Current, force: bool, sq: nat)
    requires c.minIo > 0 && k.Open? && Closes(c, k, force) && LebOk(c.crc, k.leb) && k.leb.part == []
    requires IsPad(c.crc, SyncPadding(c, k, force, sq)) && SyncPad(c, k, force) == |SyncPadding(c, k, force, sq)|
    requires IsSum(c.crc, SyncSummary(c, k, force, sq), SumEntries(k), Used(k) + SyncPad(c, k, force))
    ensures Adds(c.crc, k.lnum, k.leb, SyncLeb(c, k, force, sq), SyncAdds(c, k, force, sq))
    ensures |Layout(SyncLeb(c, k, force, sq).items)| ==
            Used(k) + SyncPad(c, k, force) + |SyncSummary(c, k, force, sq)|
  {
    hide LebOk, Layout, Recs, SumSize, PadOf, SumOf, Finished, IsPad, IsSum, Adds, SumEntries, SyncPad, Closes, PadObjs,
         OneObj, SyncTakes;
    SumAdds(c.crc, k.lnum, k.leb, SyncPadding(c, k, force, sq), SyncSummary(c, k, force, sq), SumEntries(k));
  }

  lemma FewTakes(c: Config, k: Current, force: bool)
    requires c.minIo > 0 && k.Open?
    ensures SyncTakes(c, k, force) <= 2
  {
    hide SyncPad, Closes;
  }

  lemma SumOfIs(crc: Crc, es: seq<LS.SumEntry>, offs: nat, sq: nat)
    requires SumSize(|es|) < TWO32 && offs < TWO32 && sq < TWO64
    ensures IsSum(crc, SumOf(crc, es, offs, sq), es, offs) && |SumOf(crc, es, offs, sq)| == SumSize(|es|)
  {
    hide IsSum, SumSize;
    SumCases(crc, es, offs, sq);
  }

  lemma SyncSummaryOk(c: Config, k: Current, force: bool, sq: nat)
    requires c.minIo > 0 && k.Open? && SumSize(|SumEntries(k)|) < TWO32 && sq + 2 < TWO64
    requires 0 <= Used(k) + SyncPad(c, k, force) < TWO32
    ensures IsSum(c.crc, SyncSummary(c, k, force, sq), SumEntries(k), Used(k) + SyncPad(c, k, force))
    ensures |SyncSummary(c, k, force, sq)| == SumSize(|SumEntries(k)|)
  {
    hide Layout, Used, SumEntries, SyncPad, IsSum, SumSize, Closes, SumOf, SyncTakes;
    FewTakes(c, k, force);
    SumOfIs(c.crc, SumEntries(k), Used(k) + SyncPad(c, k, force), sq + SyncTakes(c, k, force));
  }

  /** What a sync writes extends the erase-block by padding and a summary, without any record. */
  lemma SyncLebOk(c: Config, k: Current, force: bool, sq: nat)
    requires ConfigOk(c) && k.Open? && CurOk(c, k) && sq + 2 < TWO64
    ensures var b, n := SyncLeb(c, k, force, sq), SyncPad(c, k, force);
            && n >= 0 && |SyncPadding(c, k, force, sq)| == n
            && Adds(c.crc, k.lnum, k.leb, b, SyncAdds(c, k, force, sq)) && |Layout(b.items)| == SyncEnd(c, k, force)
            && (Closes(c, k, force) ==> Used(k) + n + |SyncSummary(c, k, force, sq)| == c.lebSize)
  {
    hide LebOk, Layout, PadOf, IsPad, IsSum, Adds, ConfigOk, SumEntries, SyncPad, CurOk, SumSize, SyncLeb, SyncAdds,
         SyncSummary, Used, Align, SumSizeWithExtra;
    CurMin(c, k);
    SyncPadOk(c, k, force);
    CurFacts(c, k);
    SyncedPadding(c.crc, SyncPad(c, k, force), sq + 1);
    SyncSummaryOk(c, k, force, sq);
    if Closes(c, k, force) {
      SyncLebClosing(c, k, force, sq);
    } else {
      SyncLebPage(c, k, force, sq);
    }
  }

  lemma CurMin(c: Config, k: Current)
    requires k.Open? && CurOk(c, k)
    ensures c.minIo > 0
  {
  }

  lemma SyncedPadding(crc: Crc, n: nat, sq: nat)
    requires n < TWO32 && n % OBJ_PADDING == 0 && sq < TWO64
    ensures |PadOf(crc, n, sq)| == n && IsPad(crc, PadOf(crc, n, sq))
  {
    hide IsPad;
    PadCases(crc, n, sq);
  }

  // ---- where a cut hurts --------------------------------------------------------------------------------------

  /** A cut at `p` of what a sync writes goes through an object: one written before, a padding object, or
      the summary. */
  ghost predicate CutHurts(c: Config, k: Current, force: bool, p: nat)
    requires c.minIo > 0 && k.Open?
  {
    var n := SyncPad(c, k, force);
    || Straddles(k.leb, p)
    || (CH_SZ <= n && Used(k) < p < Used(k) + n)
    || (Closes(c, k, force) && Used(k) + n < p < c.lebSize)
  }

  lemma StraddlesAdds(crc: Crc, l: nat, b: Leb, b': Leb, xs: seq<Located>, p: nat)
    requires Adds(crc, l, b, b', xs)
    ensures Straddles(b', p) <==> Straddles(b, p) || exists x :: x in xs && Across(x, p)
  {
    hide LebOk, Recs, Extends, Singles, Across, Blobs;
    if Straddles(b', p) {
      var x :| x in Objs(b') && Across(x, p);
      assert x in Objs(b) || x in xs;
    }
    if Straddles(b, p) {
      var x :| x in Objs(b) && Across(x, p);
      assert x in Objs(b');
    }
    if exists x :: x in xs && Across(x, p) {
      var x :| x in xs && Across(x, p);
      assert x in Objs(b');
    }
  }

  lemma AcrossAdds(c: Config, k: Current, force: bool, sq: nat, p: nat)
    requires c.minIo > 0 && k.Open? && SyncPad(c, k, force) == |SyncPadding(c, k, force, sq)|
    requires Closes(c, k, force) ==> Used(k) + SyncPad(c, k, force) + |SyncSummary(c, k, force, sq)| == c.lebSize
    ensures (exists x :: x in SyncAdds(c, k, force, sq) && Across(x, p)) <==>
            || (CH_SZ <= SyncPad(c, k, force) && Used(k) < p < Used(k) + SyncPad(c, k, force))
            || (Closes(c, k, force) && Used(k) + SyncPad(c, k, force) < p < c.lebSize)
  {
    hide Used, SyncPad, Closes, SyncPadding, SyncSummary;
    var n := SyncPad(c, k, force);
    var pad: Located := (Used(k), SyncPadding(c, k, force, sq));
    var sum: Located := (Used(k) + |pad.1|, SyncSummary(c, k, force, sq));
    var xs := SyncAdds(c, k, force, sq);
    assert forall x :: x in xs <==> (CH_SZ <= n && x == pad) || (Closes(c, k, force) && x == sum);
    assert Across(pad, p) <==> Used(k) < p < Used(k) + n;
    assert Closes(c, k, force) ==> (Across(sum, p) <==> Used(k) + n < p < c.lebSize);
    if CH_SZ <= n && Across(pad, p) {
      assert pad in xs;
    }
    if Closes(c, k, force) && Across(sum, p) {
      assert sum in xs;
    }
  }

  /** Exactly there. */
  lemma CutWhere(c: Config, k: Current, force: bool, sq: nat, p: nat)
    requires ConfigOk(c) && k.Open? && CurOk(c, k) && sq + 2 < TWO64
    ensures c.minIo > 0 && (Straddles(SyncLeb(c, k, force, sq), p) <==> CutHurts(c, k, force, p))
  {
    hide Straddles, SyncLeb, SyncAdds, CurOk, SyncPad, Closes, Used, Adds, Across, SyncSummary, SyncPadding;
    CurMin(c, k);
    SyncLebOk(c, k, force, sq);
    StraddlesAdds(c.crc, k.lnum, k.leb, SyncLeb(c, k, force, sq), SyncAdds(c, k, force, sq), p);
    AcrossAdds(c, k, force, sq, p);
  }

  // ---- what a cut leaves ----------------------------------------------------------------------------------------

  lemma {:induction false} EndedSame(xs: seq<Located>, ys: seq<Located>, q: nat)
    requires forall y :: y in ys ==> y.0 + |y.1| > q
    ensures EndedBy(xs + ys, q) == EndedBy(xs, q)
  {
    if xs == [] {
      assert xs + ys == ys;
      assert ys != [] ==> ys[0] in ys;
    } else {
      assert (xs + ys)[1..] == xs[1..] + ys;
      EndedSame(xs[1..], ys, q);
    }
  }

  lemma {:induction false} CompleteSame(gs: seq<seq<Located>>, xs: seq<Located>, n: nat)
    requires n <= |T.Flatten(gs)|
    ensures T.Complete(gs + Singles(xs), n) == T.Complete(gs, n)
    decreases |gs|
  {
    var all := gs + Singles(xs);
    if gs == [] {
      assert all == Singles(xs);
    } else {
      assert all[0] == gs[0] && all[1..] == gs[1..] + Singles(xs);
      if |gs[0]| <= n {
        CompleteSame(gs[1..], xs, n - |gs[0]|);
      }
    }
  }

  /** What is added behind a cut does not change which records it leaves. */
  lemma CutSameRecs(crc: Crc, l: nat, b: Leb, b': Leb, xs: seq<Located>, p: nat)
    requires Adds(crc, l, b, b', xs) && LebOk(crc, b) && b.part == []
    requires forall x :: x in xs ==> x.0 + |x.1| > p
    ensures Recs(l, CutLeb(b', p)) == Recs(l, CutLeb(b, p))
  {
    hide LebOk, Recs, Extends, Blobs, Singles, EndedBy, T.Complete, CutItems, T.Flatten, RecsOf;
    EndedSame(Objs(b), xs, p);
    EndedPrefix(Objs(b), p);
    ObjsAre(crc, b);
    CompleteSame(b.groups, xs, CutCount(b, p));
    var m := CutGroups(b, p);
    assert b'.groups[..m] == b.groups[..m];
    SameGroups(l, CutLeb(b', p), CutLeb(b, p));
  }

  lemma SameGroups(l: nat, b: Leb, b': Leb)
    requires b.groups == b'.groups
    ensures Recs(l, b) == Recs(l, b')
  {
  }

  lemma SumSizePositive(n: nat)
    ensures SumSize(n) > 0
  {
  }

  /** All that a sync adds ends behind what was there. */
  lemma AddedBehind(c: Config, k: Current, force: bool, sq: nat, p: nat)
    requires ConfigOk(c) && k.Open? && CurOk(c, k) && sq + 2 < TWO64 && p <= Used(k)
    ensures c.minIo > 0 && forall x :: x in SyncAdds(c, k, force, sq) ==> x.0 + |x.1| > p
  {
    hide CurOk, Used, SyncPad, SumEntries, SyncPadding, SyncSummary, Closes, SumSize, SyncLeb, Adds;
    CurMin(c, k);
    SyncLebOk(c, k, force, sq);
    SyncPadOk(c, k, force);
    SumSizePositive(|SumEntries(k)|);
  }

  /** How many objects a cut at `p` leaves: all, if it is behind them, else those of the transactions
      complete by `p`. */
  ghost function KeptBy(a: State, p: nat): int
    requires a.cur.Open?
  {
    if p >= Used(a.cur) then |a.objs|
    else |a.objs| - |Recs(a.cur.lnum, a.cur.leb)| + |Recs(a.cur.lnum, CutLeb(a.cur.leb, p))|
  }

  lemma AddsFacts(crc: Crc, l: nat, b: Leb, b': Leb, xs: seq<Located>)
    requires Adds(crc, l, b, b', xs)
    ensures LebOk(crc, b') && Extends(b, b') && b'.part == [] && Recs(l, b') == Recs(l, b)
  {
    hide LebOk, Recs, Singles, Blobs;
  }

  /** Behind all objects a cut leaves all records. */
  lemma CutBehind(crc: Crc, l: nat, b: Leb, b': Leb, xs: seq<Located>, p: nat)
    requires Adds(crc, l, b, b', xs) && LebOk(crc, b) && |Layout(b.items)| <= p <= |Layout(b'.items)|
    requires p % OBJ_PADDING == 0 && !Straddles(b', p)
    ensures Recs(l, CutLeb(b', p)) == Recs(l, b)
  {
    hide LebOk, Recs, Adds, CutLeb, Straddles, Layout;
    AddsFacts(crc, l, b, b', xs);
    CutOk(crc, l, b', p);
    CutKeeps(crc, l, b, b', p);
  }

  lemma KeptCutAt(c: Config, a: State, force: bool, p: nat)
    requires StateOk(c, a) && a.cur.Open? && a.sqnum + 2 < TWO64 && c.minIo > 0
    requires p <= SyncEnd(c, a.cur, force) && p % OBJ_PADDING == 0 && !Straddles(SyncLeb(c, a.cur, force, a.sqnum), p)
    ensures CutCountAt(a, SyncLeb(c, a.cur, force, a.sqnum), p) == KeptBy(a, p)
  {
    hide LebOk, Recs, Adds, CutLeb, Straddles, Layout, SyncAdds, SyncLeb, SyncEnd, CurOk, ConfigOk, NumbersUpto;
    var k, b, xs := a.cur, SyncLeb(c, a.cur, force, a.sqnum), SyncAdds(c, a.cur, force, a.sqnum);
    CurFacts(c, k);
    SyncLebOk(c, k, force, a.sqnum);
    if p >= Used(k) {
      CutBehind(c.crc, k.lnum, k.leb, b, xs, p);
    } else {
      AddedBehind(c, k, force, a.sqnum, p);
      CutSameRecs(c.crc, k.lnum, k.leb, b, xs, p);
    }
  }

  /** A cut that goes through no object leaves all that was on flash before. */
  lemma KeptAtLeast(c: Config, a: State, force: bool, p: nat)
    requires StateOk(c, a) && a.cur.Open? && a.sqnum + 2 < TWO64 && c.minIo > 0
    requires SyncOffs(a.cur) <= p <= SyncEnd(c, a.cur, force) && p % OBJ_PADDING == 0
    requires !Straddles(SyncLeb(c, a.cur, force, a.sqnum), p)
    ensures a.synced <= CutCountAt(a, SyncLeb(c, a.cur, force, a.sqnum), p) <= |a.objs|
  {
    hide LebOk, Recs, Adds, CutLeb, Straddles, Layout, SyncAdds, SyncLeb, SyncEnd, CurOk, ConfigOk, NumbersUpto;
    var k, b, xs := a.cur, SyncLeb(c, a.cur, force, a.sqnum), SyncAdds(c, a.cur, force, a.sqnum);
    CurFacts(c, k);
    SyncLebOk(c, k, force, a.sqnum);
    AddsFacts(c.crc, k.lnum, k.leb, b, xs);
    ExtendsTransitive(k.disk, k.leb, b);
    CutOk(c.crc, k.lnum, b, p);
    CutKeeps(c.crc, k.lnum, k.disk, b, p);
  }

  lemma PowerCutCases(c: Config, a: State, force: bool, pages: nat)
    requires c.minIo > 0
    ensures AfterPowerCut(c, a, force, pages) ==
            if !Writes(a.cur, force) || pages == 0 then AfterCrash(a)
            else if CutAt(c, a.cur, pages) >= SyncEnd(c, a.cur, force) then AfterCrash(AfterSync(c, a, force))
            else AfterCutAt(c, a, SyncLeb(c, a.cur, force, a.sqnum), CutAt(c, a.cur, pages))
  {
    hide SyncLeb, AfterSync, AfterCrash, AfterCutAt, SyncEnd, SyncOffs, CutAt;
  }

  /** A cut is at the end of a page. */
  lemma CutAtOk(c: Config, k: Current, pages: nat)
    requires ConfigOk(c) && k.Open? && CurOk(c, k)
    ensures SyncOffs(k) <= CutAt(c, k, pages) && CutAt(c, k, pages) % OBJ_PADDING == 0
  {
    hide LebOk, Layout, Extends, SumSize, SumEntries, Used, SyncOffs;
    MorePages(SyncOffs(k), pages, c.minIo);
    PageMultiple(CutAt(c, k, pages), c.minIo);
    assert pages * c.minIo >= 0;
  }

  /** Losing power in the middle of a sync, told by arithmetic: the store does not come back exactly if the
      cut goes through an object, and else it comes back with `KeptBy` objects, if their numbers allow it. */
  lemma PowerCutExact(c: Config, a: State, force: bool, pages: nat)
    requires StateOk(c, a) && a.cur.Open? && a.sqnum + 2 < TWO64 && c.minIo > 0 && Writes(a.cur, force) && pages > 0
    requires CutAt(c, a.cur, pages) < SyncEnd(c, a.cur, force)
    ensures var p := CutAt(c, a.cur, pages);
            && (!CutHurts(c, a.cur, force, p) ==> a.synced <= KeptBy(a, p) <= |a.objs|)
            && AfterPowerCut(c, a, force, pages) ==
               if CutHurts(c, a.cur, force, p) then
                 Ends(if CutsSeen(c.crc, SyncLeb(c, a.cur, force, a.sqnum), p) then Broken else Untold)
               else AfterMount(a.objs[..KeptBy(a, p)], a.super, a.space)
  {
    hide CurOk, ConfigOk, NumbersUpto, Straddles, SyncLeb, CutHurts, KeptBy, CutCountAt, CutsSeen, CutAt, SyncEnd,
         AfterMount, Recs, SyncOffs;
    var p := CutAt(c, a.cur, pages);
    CutAtOk(c, a.cur, pages);
    CutWhere(c, a.cur, force, a.sqnum, p);
    if !CutHurts(c, a.cur, force, p) {
      KeptCutAt(c, a, force, p);
      KeptAtLeast(c, a, force, p);
    }
  }

  // ---- what is kept -----------------------------------------------------------------------------------------------

  /** What is on flash in state `a` is at the beginning of what is on flash in state `z`. */
  ghost predicate Keeps(a: State, z: State) {
    a.synced <= |a.objs| && z.synced <= |z.objs| && a.objs[..a.synced] <= z.objs[..z.synced]
  }

  lemma WriteKeeps(c: Config, a: State, os: seq<seq<byte>>, del: bool)
    requires c.minIo > 0 && CanPack(os, a.sqnum) && a.synced <= |a.objs|
    ensures Keeps(a, AfterWrite(c, a, os, del).0)
  {
    hide SyncLeb, SyncTakes, Closes, Used, SyncOffs, HasRoom, PackAll, CanAlloc, Taken, AddTrans, FirstUnused;
  }

  lemma SyncKeepsAll(c: Config, a: State, force: bool)
    requires c.minIo > 0 && a.synced <= |a.objs|
    ensures var z := AfterSync(c, a, force);
            Keeps(a, z) && z.objs == a.objs && z.synced == |z.objs| && z.super == a.super
  {
    hide SyncLeb, SyncTakes, Closes, Used, SyncOffs;
  }

  lemma UnmountKeepsAll(c: Config, a: State)
    requires c.minIo > 0 && a.synced <= |a.objs| && NumbersOk(a)
    ensures var z := AfterUnmount(c, a); z.objs == a.objs && z.synced == |z.objs|
    ensures RestartNumber(AfterUnmount(c, a).super) >= a.sqnum
  {
    hide AfterSync, SuperTakes;
    SyncKeepsAll(c, a, true);
    SyncNumbers(c, a, true);
  }

  lemma SyncNumbers(c: Config, a: State, force: bool)
    requires c.minIo > 0
    ensures AfterSync(c, a, force).sqnum >= a.sqnum
  {
    hide SyncLeb, Closes, Used, SyncOffs, SyncTakes;
  }

  lemma CrashKeeps(a: State, b: State, z: State, ans: Answer)
    requires AfterCrash(b) == Goes(z, ans) && Keeps(a, b)
    ensures Keeps(a, z)
  {
    hide NumbersUpto, SpaceOnFlash;
  }

  lemma PowerCutKeeps(c: Config, a: State, force: bool, pages: nat, z: State, ans: Answer)
    requires StateOk(c, a) && a.sqnum + 2 < TWO64 && c.minIo > 0
    requires AfterPowerCut(c, a, force, pages) == Goes(z, ans)
    ensures Keeps(a, z)
  {
    hide StateOk, AfterCutAt, AfterSync, AfterCrash, AfterMount, SyncEnd, CutAt, CutHurts, KeptBy, SyncLeb, Keeps;
    KeepsSelf(c, a);
    if !Writes(a.cur, force) || pages == 0 {
      CrashKeeps(a, a, z, ans);
    } else if CutAt(c, a.cur, pages) >= SyncEnd(c, a.cur, force) {
      SyncKeepsAll(c, a, force);
      CrashKeeps(a, AfterSync(c, a, force), z, ans);
    } else {
      PowerCutExact(c, a, force, pages);
      MountKeeps(a, KeptBy(a, CutAt(c, a.cur, pages)), a.super, a.space, z, ans);
    }
  }

  lemma KeepsSelf(c: Config, a: State)
    requires StateOk(c, a)
    ensures Keeps(a, a) && a.synced <= |a.objs|
  {
    hide CurOk, ConfigOk, NumbersUpto, NumbersOk, Recs;
  }

  lemma MountKeeps(a: State, n: nat, super: nat, space: Space, z: State, ans: Answer)
    requires a.synced <= n <= |a.objs| && AfterMount(a.objs[..n], super, space) == Goes(z, ans)
    ensures Keeps(a, z)
  {
    hide NumbersUpto;
  }

  /** No operation loses what is on flash. */
  lemma EffectKeeps(c: Config, op: Op, a: State, z: State, ans: Answer)
    requires StateOk(c, a) && c.minIo > 0 && OpOk(c, op) && a.sqnum + Takes(op) < TWO64
    requires Effect(c, op, a) == Goes(z, ans)
    ensures Keeps(a, z)
  {
    hide CurOk, ConfigOk, NumbersUpto, AfterWrite, AfterSync, AfterPowerCut, AfterUnmount, AfterCrash, Lookup,
         NumbersOk, Recs;
    match op {
      case Write(os, del) => WriteKeeps(c, a, os, del);
      case SyncAll => SyncKeepsAll(c, a, false);
      case Read(_, _) =>
      case Unmount =>
        UnmountKeepsAll(c, a);
        CrashKeeps(a, AfterUnmount(c, a), z, ans);
      case Crash => CrashKeeps(a, a, z, ans);
      case PowerCut(force, pages) => PowerCutKeeps(c, a, force, pages, z, ans);
    }
  }

  // ---- the reserves ---------------------------------------------------------------------------------------------

  lemma WriteSpares(s: Space, open: bool, fits: bool, fitsEmpty: bool, gc: nat, del: nat, deletes: bool)
    ensures var z := WriteSpace(s, open, fits, fitsEmpty, gc, del, deletes).1;
            z.nbFree >= s.nbFree || z.nbFree >= gc + (if deletes then 0 else del) - 1
  {
    hide FirstUnused;
  }

  /** An operation takes a free erase-block only while it leaves the reserve for garbage collection, less the
      erase-block taken, and unless it deletes, also the reserve for deletions. */
  lemma EffectSpares(c: Config, op: Op, a: State, z: State, ans: Answer)
    requires c.minIo > 0 && OpOk(c, op) && a.sqnum + Takes(op) < TWO64 && Effect(c, op, a) == Goes(z, ans)
    ensures z.space.nbFree >= a.space.nbFree
            || z.space.nbFree >= c.gc + (if op.Write? && op.del then 0 else c.del) - 1
  {
    hide SyncLeb, WriteSpace, AfterWrite, NumbersUpto, Lookup, CutLeb, Straddles, SyncEnd, Closes, Writes, SyncTakes,
         Recs, SyncOffs;
    match op {
      case Write(os, del) =>
        WriteSpaceOf(c, a, os, del);
        WriteSpares(a.space, a.cur.Open?, a.cur.Open? && HasRoom(c, a.cur, |Concat(os)|, |os|),
                    c.lebSize >= |Concat(os)| + SumSizeWithExtra(0, |os|), c.gc, c.del, del);
      case SyncAll =>
      case Read(_, _) =>
      case Unmount =>
      case Crash =>
      case PowerCut(_, _) =>
    }
  }

  /** As long as the reserve is there, a deletion that fits an erase-block is stored. */
  lemma DeletionStored(c: Config, a: State, os: seq<seq<byte>>)
    requires c.minIo > 0 && CanPack(os, a.sqnum) && c.lebSize >= |Concat(os)| + SumSizeWithExtra(0, |os|)
    requires c.del > 0 && a.space.nbFree >= c.gc + c.del - 1 && exists l :: 3 <= l < |a.space.used| && !a.space.used[l]
    ensures AfterWrite(c, a, os, true).1
  {
    hide AfterWrite, CanAlloc, SumSizeWithExtra, Taken;
    WriteSpaceOf(c, a, os, true);
    CanAllocIff(a.space.used, a.space.nbFree, c.gc, c.del, true);
  }

  /** After a sync or an unmount everything is on flash. */
  lemma SyncedEffect(c: Config, op: Op, a: State, z: State, ans: Answer)
    requires StateOk(c, a) && c.minIo > 0 && OpOk(c, op) && a.sqnum + Takes(op) < TWO64
    requires Effect(c, op, a) == Goes(z, ans) && (op.SyncAll? || op.Unmount?)
    ensures z.objs == a.objs && z.synced == |z.objs|
  {
    hide CurOk, ConfigOk, NumbersUpto, AfterSync, AfterUnmount, SpaceOnFlash, NumbersOk, Recs;
    if op.SyncAll? {
      SyncKeepsAll(c, a, false);
    } else {
      UnmountKeepsAll(c, a);
    }
  }

  lemma MoreNumbers(n: nat, n': nat, objs: seq<seq<byte>>)
    requires NumbersUpto(n, objs) && n <= n'
    ensures NumbersUpto(n', objs)
  {
  }

  /** A run ends only in a crash or a loss of power: after an unmount it goes on, and with numbers that
      hold for the next crash. */
  lemma UnmountGoesOn(c: Config, op: Op, a: State)
    requires StateOk(c, a) && c.minIo > 0 && OpOk(c, op) && a.sqnum + Takes(op) < TWO64
    requires !op.Crash? && !op.PowerCut?
    ensures Effect(c, op, a).Goes?
    ensures op.Unmount? ==> AfterCrash(Effect(c, op, a).z).Goes?
  {
    hide CurOk, ConfigOk, NumbersUpto, AfterWrite, AfterSync, AfterUnmount, SpaceOnFlash, NumbersOk, Recs, Lookup,
         RestartNumber;
    if op.Unmount? {
      var b := AfterUnmount(c, a);
      UnmountKeepsAll(c, a);
      MoreNumbers(a.sqnum, RestartNumber(b.super), a.objs);
      assert b.objs[..|b.objs|] == b.objs;
    }
  }
}
