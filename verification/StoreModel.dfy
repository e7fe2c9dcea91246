/** The object store as a history: what has been written to each erase-block, what of it is on flash,
    and the log of all records. The theorem of this module is that mounting gives the index of the
    records that had been synchronised. */
module StoreModel {
  import opened LogIndex
  import LS = LogSummary
  import opened ObjFormat
  import opened SumFormat
  import opened LebModel
  import T = Transactions

  type Flash = map<nat, seq<byte>>
  type Lebs = map<nat, Leb>

  /** `live`: everything written; `disk`: what is on flash; `closed`: the erase-blocks that end with
      a summary; `log` and `synced`: the records of `live` and of `disk` in the order written. */
  datatype Hist = Hist(live: Lebs, disk: Lebs, closed: set<nat>, log: seq<Rec>, synced: seq<Rec>)

  ghost function AllRecs(v: Lebs): set<Rec> {
    set l, r | l in v && r in Recs(l, v[l]) :: r
  }

  /** An erase-block of `size` bytes can hold `b`, and its records are in order. */
  ghost predicate Fits(crc: Crc, size: nat, l: nat, b: Leb) {
    LebOk(crc, b) && |Layout(b.items)| <= size && Rising(Recs(l, b))
  }

  ghost predicate DiskOk(crc: Crc, size: nat, leb: seq<byte>, l: nat, b: Leb) {
    Fits(crc, size, l, b) && |leb| == size && OnFlash(leb, b)
  }

  /** A closed erase-block has the summary of all its records; an open one has none. */
  ghost predicate SummaryOk(crc: Crc, leb: seq<byte>, l: nat, b: Leb, closed: bool)
    requires |leb| >= SUM_OFFS_SZ
  {
    ReadSummary(crc, leb) == if closed then Entries(LS.SumAll(Recs(l, b))) else NoSummary
  }

  ghost predicate LiveOk(crc: Crc, size: nat, live: Lebs) {
    forall l {:trigger Fits(crc, size, l, live[l])} :: l in live ==> Fits(crc, size, l, live[l])
  }

  ghost predicate FlashOk(crc: Crc, size: nat, flash: Flash, disk: Lebs, closed: set<nat>)
    requires SUM_OFFS_SZ <= size
  {
    && flash.Keys == disk.Keys
    && forall l {:trigger OneOk(crc, size, flash[l], l, disk[l], l in closed)} ::
         l in disk ==> OneOk(crc, size, flash[l], l, disk[l], l in closed)
  }

  ghost predicate OneOk(crc: Crc, size: nat, leb: seq<byte>, l: nat, b: Leb, closed: bool)
    requires SUM_OFFS_SZ <= size
  {
    DiskOk(crc, size, leb, l, b) && SummaryOk(crc, leb, l, b, closed)
  }

  ghost predicate HistOk(crc: Crc, size: nat, flash: Flash, h: Hist) {
    && SUM_OFFS_SZ <= size <= LS.DEL_FLAG
    && h.closed <= h.disk.Keys <= h.live.Keys
    && LiveOk(crc, size, h.live)
    && FlashOk(crc, size, flash, h.disk, h.closed)
    && (forall l :: l in h.closed ==> h.live[l] == h.disk[l])
    && LogOk(h)
  }

  ghost predicate LogOk(h: Hist) {
    Members(h.log) == AllRecs(h.live) && Members(h.synced) == AllRecs(h.disk) && h.synced <= h.log
  }

  // ---- objects inside an erase-block ------------------------------------------------------------------

  lemma {:induction false} BlobPlace(items: seq<Item>, at: nat, b: Located)
    requires b in Blobs(items, at)
    ensures at <= b.0 && b.0 + |b.1| <= at + |Layout(items)|
    ensures Layout(items)[b.0 - at..b.0 - at + |b.1|] == b.1
    decreases |items|
  {
    hide Blobs, Layout, ItemBytes;
    NoItems(at);
    BlobsHead(items, at);
    LayoutHead(items);
    var h, t := ItemBytes(items[0]), Layout(items[1..]);
    if items[0].Blob? && b == (at, items[0].o) {
      BlobBytes(items[0].o);
      Split(h, t);
      assert (h + t)[0..|h|] == h;
    } else {
      BlobPlace(items[1..], at + |h|, b);
      Shifted(h, t, b.0 - at - |h|, |b.1|);
    }
  }

  lemma BlobBytes(o: seq<byte>)
    ensures ItemBytes(Blob(o)) == o
  {
  }

  lemma Shifted(h: seq<byte>, t: seq<byte>, i: nat, n: nat)
    requires i + n <= |t|
    ensures (h + t)[|h| + i..|h| + i + n] == t[i..i + n]
  {
  }

  /** The records of an erase-block lie in it, and the bytes there are those of the object. */
  lemma RecInLeb(crc: Crc, size: nat, l: nat, b: Leb, r: Rec) returns (o: Located)
    requires Fits(crc, size, l, b) && size <= LS.DEL_FLAG && r in Recs(l, b)
    ensures o in Objs(b) && HasId(o.1) && r == RecAt(l, o) && LS.In(l, r)
    ensures o.0 + |o.1| <= |Layout(b.items)| && Layout(b.items)[o.0..o.0 + |o.1|] == o.1
  {
    hide HasId, RecAt, Layout, Blobs, LebOk, RecsOf;
    RecsSource(l, T.Flatten(b.groups), r);
    ObjsAre(crc, b);
    o :| o in T.Flatten(b.groups) && HasId(o.1) && r == RecAt(l, o);
    assert o in Objs(b);
    BlobPlace(b.items, 0, o);
    RecPlace(l, o, size);
  }

  lemma RecPlace(l: nat, o: Located, size: nat)
    requires HasId(o.1) && o.0 + |o.1| <= size <= LS.DEL_FLAG
    ensures LS.In(l, RecAt(l, o))
  {
  }

  lemma LebRun(crc: Crc, size: nat, l: nat, b: Leb)
    requires Fits(crc, size, l, b) && size <= LS.DEL_FLAG
    ensures LS.Run(l, Recs(l, b))
  {
    forall r | r in Recs(l, b) ensures LS.In(l, r) {
      var o := RecInLeb(crc, size, l, b, r);
    }
  }

  // ---- mounting -----------------------------------------------------------------------------------------

  /** The records an erase-block contributes at mount time: its summary if it has one, or a scan. */
  function MountRecs(crc: Crc, l: nat, leb: seq<byte>): seq<Rec>
    requires |leb| >= SUM_OFFS_SZ
  {
    match ReadSummary(crc, leb)
    case Entries(es) => EntryRecs(l, es)
    case NoSummary => ScanRecs(crc, l, leb)
    case BadSummary => []
  }

  function EntryRecs(l: nat, es: seq<LS.SumEntry>): (rs: seq<Rec>)
    ensures |rs| == |es|
  {
    seq(|es|, i requires 0 <= i < |es| => LS.RecOf(l, es[i]))
  }

  lemma EntryRecsMembers(l: nat, es: seq<LS.SumEntry>)
    ensures Members(EntryRecs(l, es)) == LS.Recs(l, es)
  {
    var rs := EntryRecs(l, es);
    forall r | r in LS.Recs(l, es) ensures r in rs {
      var i :| 0 <= i < |es| && r == LS.RecOf(l, es[i]);
      assert rs[i] == r;
    }
  }

  ghost function Mounted(crc: Crc, flash: Flash): set<Rec>
    requires forall l :: l in flash ==> |flash[l]| >= SUM_OFFS_SZ
  {
    set l, r | l in flash && r in MountRecs(crc, l, flash[l]) :: r
  }

  lemma LebStands(crc: Crc, size: nat, leb: seq<byte>, l: nat, b: Leb, closed: bool)
    requires DiskOk(crc, size, leb, l, b) && SUM_OFFS_SZ <= size <= LS.DEL_FLAG && SummaryOk(crc, leb, l, b, closed)
    ensures LS.StandsFor(Members(MountRecs(crc, l, leb)), Members(Recs(l, b)))
  {
    if closed {
      LebRun(crc, size, l, b);
      LS.SummaryOfRun(l, Recs(l, b));
      EntryRecsMembers(l, LS.SumAll(Recs(l, b)));
    } else {
      ScanFinds(crc, l, leb, b);
      forall f | f in Recs(l, b) ensures LS.HasStand(Members(Recs(l, b)), f) {
        assert LS.Supersedes(f, f);
      }
    }
  }

  lemma TheDisk(crc: Crc, size: nat, flash: Flash, h: Hist, l: nat)
    requires HistOk(crc, size, flash, h) && l in h.disk
    ensures l in flash && DiskOk(crc, size, flash[l], l, h.disk[l]) && |flash[l]| == size
    ensures SummaryOk(crc, flash[l], l, h.disk[l], l in h.closed)
  {
    assert OneOk(crc, size, flash[l], l, h.disk[l], l in h.closed);
  }

  lemma TheLeb(crc: Crc, size: nat, flash: Flash, h: Hist, l: nat)
    requires HistOk(crc, size, flash, h) && l in h.live
    ensures Fits(crc, size, l, h.live[l])
  {
    assert Fits(crc, size, l, h.live[l]);
  }

  lemma MountedStands(crc: Crc, size: nat, flash: Flash, h: Hist)
    requires HistOk(crc, size, flash, h)
    ensures forall l :: l in flash ==> |flash[l]| >= SUM_OFFS_SZ
    ensures LS.StandsFor(Mounted(crc, flash), AllRecs(h.disk))
  {
    forall l | l in flash ensures |flash[l]| >= SUM_OFFS_SZ {
      TheDisk(crc, size, flash, h, l);
    }
    forall f | f in AllRecs(h.disk) ensures LS.HasStand(Mounted(crc, flash), f) {
      var l :| l in h.disk && f in Recs(l, h.disk[l]);
      TheDisk(crc, size, flash, h, l);
      LebStands(crc, size, flash[l], l, h.disk[l], l in h.closed);
      var s := LS.Stand(Members(MountRecs(crc, l, flash[l])), Members(Recs(l, h.disk[l])), f);
      assert s in Mounted(crc, flash);
    }
    forall s | s in Mounted(crc, flash) ensures s in AllRecs(h.disk) {
      var l :| l in flash && s in MountRecs(crc, l, flash[l]);
      TheDisk(crc, size, flash, h, l);
      LebStands(crc, size, flash[l], l, h.disk[l], l in h.closed);
      assert s in Members(Recs(l, h.disk[l]));
    }
  }

  /** In every state, mounting what is on flash gives the index of the synchronised records, whatever
      the order in which erase-blocks, objects and deletions are processed, as long as no two objects of the
      same id have the same number; if the log is in order, it is the index that the store had. */
  lemma MountRebuilds(crc: Crc, size: nat, flash: Flash, h: Hist, os: seq<Rec>, ds: seq<Rec>)
    requires HistOk(crc, size, flash, h) && Distinct(Members(h.synced)) && Objects(os) && Deletions(ds)
    requires forall l :: l in flash ==> |flash[l]| >= SUM_OFFS_SZ
    requires Members(os) + Members(ds) == Mounted(crc, flash)
    ensures IsIndex(Replay(map[], os + ds), Members(h.synced))
    ensures InOrder(h.synced) ==> Replay(map[], os + ds) == Replay(map[], h.synced)
  {
    var part, full := Mounted(crc, flash), AllRecs(h.disk);
    MountedStands(crc, size, flash, h);
    TwoPasses(os, ds);
    var m := Replay(map[], os + ds);
    LS.SummarySuffices(part, full, {}, m);
    assert full + {} == full && part + {} == part;
    if InOrder(h.synced) {
      ReplayIsIndex(h.synced);
      IndexUnique(m, Replay(map[], h.synced), full);
    }
  }
}
