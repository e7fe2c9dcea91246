/** Erase-blocks as the transactions written to them: what a mount finds in them, by scanning or
    through the summary. */
module LebModel {
  import opened ObjectId
  import opened LogIndex
  import opened LogSummary
  import opened ObjFormat
  import opened SumFormat
  import T = Transactions

  /** An object and the offset it was written at. */
  type Located = (nat, seq<byte>)

  predicate HasId(o: seq<byte>) {
    |o| >= 32 && (TypeOf(o) <= 2 || TypeOf(o) == DEL_TYPE)
  }

  function IdOf(o: seq<byte>): ObjId
    requires |o| >= 32
  {
    UnLe64(o[24..32])
  }

  /** The record of an object with an id. */
  function RecAt(lnum: nat, b: Located): Rec
    requires HasId(b.1)
  {
    var a := Addr(lnum, b.0, |b.1|, SqnumOf(b.1));
    if TypeOf(b.1) == DEL_TYPE then Del(IdOf(b.1), a) else Obj(IdOf(b.1), a)
  }

  /** The records among some objects; padding and summaries have none. */
  function RecsOf(lnum: nat, bs: seq<Located>): seq<Rec> {
    if bs == [] then []
    else RecsOf(lnum, bs[..|bs| - 1]) + if HasId(bs[|bs| - 1].1) then [RecAt(lnum, bs[|bs| - 1])] else []
  }

  lemma {:induction false} RecsAppend(lnum: nat, a: seq<Located>, b: seq<Located>)
    ensures RecsOf(lnum, a + b) == RecsOf(lnum, a) + RecsOf(lnum, b)
    decreases |b|
  {
    if b == [] {
      assert a + b == a;
    } else {
      assert (a + b)[..|a + b| - 1] == a + b[..|b| - 1];
      RecsAppend(lnum, a, b[..|b| - 1]);
    }
  }

  lemma {:induction false} RecsSource(lnum: nat, bs: seq<Located>, r: Rec)
    requires r in RecsOf(lnum, bs)
    ensures exists b :: b in bs && HasId(b.1) && r == RecAt(lnum, b)
  {
    var n := |bs| - 1;
    if HasId(bs[n].1) && r == RecAt(lnum, bs[n]) {
      assert bs[n] in bs;
    } else {
      RecsSource(lnum, bs[..n], r);
      var b :| b in bs[..n] && HasId(b.1) && r == RecAt(lnum, b);
      assert b in bs;
    }
  }

  function Tag(b: Located): T.Stamped<Located> {
    T.Stamped(if |b.1| >= CH_SZ then TransOf(b.1) else 0, b)
  }

  function Tags(bs: seq<Located>): (ts: seq<T.Stamped<Located>>)
    ensures |ts| == |bs|
  {
    seq(|bs|, i requires 0 <= i < |bs| => Tag(bs[i]))
  }

  // ---- the history of one erase-block ---------------------------------------------------------------

  /** What was put into an erase-block: whole transactions, and behind them, if a write to flash was
      cut short, the beginning of one more. */
  datatype Leb = Leb(items: seq<Item>, groups: seq<seq<Located>>, part: seq<Located>)

  function Objs(b: Leb): seq<Located> {
    Blobs(b.items, 0)
  }

  /** The records of the whole transactions. */
  function Recs(lnum: nat, b: Leb): seq<Rec> {
    RecsOf(lnum, T.Flatten(b.groups))
  }

  /** The beginning of a transaction `t`. */
  ghost predicate Begins(part: seq<Located>, t: seq<Located>) {
    T.Proper(t) && |part| < |t| && part == t[..|part|] && Tags(part) == T.Stamp(t)[..|part|]
  }

  ghost predicate PartOk(part: seq<Located>) {
    part == [] || exists t :: Begins(part, t)
  }

  ghost predicate LebOk(crc: Crc, b: Leb) {
    && (forall i :: i in b.items ==> ItemOk(crc, i))
    && (forall g :: g in b.groups ==> T.Proper(g))
    && PartOk(b.part)
    && Tags(Objs(b)) == T.Written(b.groups) + Tags(b.part)
  }

  const EMPTY_LEB := Leb([], [], [])

  lemma EmptyLebOk(crc: Crc)
    ensures LebOk(crc, EMPTY_LEB) && Recs(0, EMPTY_LEB) == [] && Layout(EMPTY_LEB.items) == []
  {
  }

  /** Adding padding bytes. */
  function AddGap(b: Leb, n: nat): Leb {
    b.(items := b.items + [Gap(n)])
  }

  /** Adding an object that is a transaction of its own. */
  function AddAtom(b: Leb, o: seq<byte>): Leb {
    Leb(b.items + [Blob(o)], b.groups + [[(|Layout(b.items)|, o)]], [])
  }

  lemma GapAdded(crc: Crc, b: Leb, n: nat)
    requires LebOk(crc, b) && n % OBJ_PADDING == 0
    ensures LebOk(crc, AddGap(b, n)) && Layout(AddGap(b, n).items) == Layout(b.items) + Bytes(PAD_BYTE, n)
  {
    hide PartOk, Layout, Blobs;
    BlobsSnoc(b.items, Gap(n), 0);
    LayoutSnoc(b.items, Gap(n));
  }

  lemma AtomAdded(crc: Crc, b: Leb, o: seq<byte>)
    requires LebOk(crc, b) && b.part == [] && |o| >= CH_SZ && Sealed(crc, o) && TransOf(o) == T.TRANS_ATOM
    ensures LebOk(crc, AddAtom(b, o)) && Layout(AddAtom(b, o).items) == Layout(b.items) + o
  {
    hide Layout, Blobs, Sealed, ItemBytes, T.Written, T.Stamp;
    var x: Located := (|Layout(b.items)|, o);
    BlobsSnoc(b.items, Blob(o), 0);
    LayoutSnoc(b.items, Blob(o));
    T.WrittenSnoc(b.groups, [x]);
    TagsAppend(Objs(b), [x]);
    OneTag(x);
    OneBlob(o);
    NoTags(T.Written(b.groups));
    NoTags(T.Written(AddAtom(b, o).groups));
  }

  lemma OneTag(x: Located)
    requires |x.1| >= CH_SZ && TransOf(x.1) == T.TRANS_ATOM
    ensures T.Stamp([x]) == Tags([x])
  {
  }

  lemma NoTags(ts: seq<T.Stamped<Located>>)
    ensures Tags([]) == [] && ts + Tags([]) == ts
  {
  }

  /** An atom without an id, that is padding or a summary, adds no record. */
  lemma AtomRecs(lnum: nat, b: Leb, o: seq<byte>)
    requires !HasId(o)
    ensures Recs(lnum, AddAtom(b, o)) == Recs(lnum, b)
  {
    hide HasId, RecAt;
    var x: Located := (|Layout(b.items)|, o);
    T.WrittenSnoc(b.groups, [x]);
    RecsAppend(lnum, T.Flatten(b.groups), [x]);
    assert RecsOf(lnum, [x][..0]) == [];
  }

  // ---- transactions -----------------------------------------------------------------------------------

  /** Where the objects of a transaction go when written from `at` on. */
  function Locate(os: seq<seq<byte>>, at: nat): (ls: seq<Located>)
    ensures |ls| == |os|
  {
    if os == [] then [] else Locate(os[..|os| - 1], at) + [(at + |Concat(os[..|os| - 1])|, os[|os| - 1])]
  }

  function Concat(os: seq<seq<byte>>): seq<byte> {
    if os == [] then [] else Concat(os[..|os| - 1]) + os[|os| - 1]
  }

  function AsItems(os: seq<seq<byte>>): seq<Item> {
    if os == [] then [] else AsItems(os[..|os| - 1]) + [Blob(os[|os| - 1])]
  }

  function AddTrans(b: Leb, os: seq<seq<byte>>): Leb {
    Leb(b.items + AsItems(os), b.groups + [Locate(os, |Layout(b.items)|)], [])
  }

  /** The objects carry the stamps of a transaction. */
  predicate StampedAs(crc: Crc, os: seq<seq<byte>>) {
    forall i :: 0 <= i < |os| ==> Sealed(crc, os[i]) && TransOf(os[i]) == T.GetObjTrans(|os|, i)
  }

  lemma {:induction false} TransLayout(b: Leb, os: seq<seq<byte>>)
    ensures Layout(b.items + AsItems(os)) == Layout(b.items) + Concat(os)
    ensures Blobs(b.items + AsItems(os), 0) == Objs(b) + Locate(os, |Layout(b.items)|)
    decreases |os|
  {
    hide Layout, Blobs, AsItems, Locate, Concat, ItemBytes;
    NoTrans(|Layout(b.items)|);
    if os == [] {
      assert b.items + AsItems(os) == b.items;
    } else {
      var n := |os| - 1;
      var its := b.items + AsItems(os[..n]);
      TransLayout(b, os[..n]);
      TransSnoc(os, |Layout(b.items)|);
      assert b.items + AsItems(os) == its + [Blob(os[n])];
      LayoutSnoc(its, Blob(os[n]));
      BlobsSnoc(its, Blob(os[n]), 0);
      OneBlob(os[n]);
      Reassociated(Layout(b.items), Concat(os[..n]), os[n]);
      Relocated(Objs(b), Locate(os[..n], |Layout(b.items)|), (|Layout(b.items)| + |Concat(os[..n])|, os[n]));
    }
  }

  lemma NoTrans(at: nat)
    ensures AsItems([]) == [] && Concat([]) == [] && Locate([], at) == []
  {
  }

  lemma TransSnoc(os: seq<seq<byte>>, at: nat)
    requires os != []
    ensures var n := |os| - 1;
            && AsItems(os) == AsItems(os[..n]) + [Blob(os[n])] && Concat(os) == Concat(os[..n]) + os[n]
            && Locate(os, at) == Locate(os[..n], at) + [(at + |Concat(os[..n])|, os[n])]
  {
  }

  lemma OneBlob(o: seq<byte>)
    ensures ItemBytes(Blob(o)) == o
  {
  }

  lemma Reassociated(a: seq<byte>, b: seq<byte>, c: seq<byte>)
    ensures a + b + c == a + (b + c)
  {
  }

  lemma Relocated(a: seq<Located>, b: seq<Located>, x: Located)
    ensures a + b + [x] == a + (b + [x])
  {
  }

  lemma {:induction false} LocateAt(os: seq<seq<byte>>, at: nat, i: nat)
    requires i < |os|
    ensures Locate(os, at)[i] == (at + |Concat(os[..i])|, os[i])
    decreases |os|
  {
    if i < |os| - 1 {
      LocateAt(os[..|os| - 1], at, i);
      assert os[..|os| - 1][..i] == os[..i];
    }
  }

  lemma {:induction false} AsItemsOk(crc: Crc, os: seq<seq<byte>>)
    requires forall i :: 0 <= i < |os| ==> Sealed(crc, os[i])
    ensures forall x :: x in AsItems(os) ==> ItemOk(crc, x)
    decreases |os|
  {
    if os != [] {
      AsItemsOk(crc, os[..|os| - 1]);
    }
  }

  lemma TransAdded(crc: Crc, b: Leb, os: seq<seq<byte>>)
    requires LebOk(crc, b) && b.part == [] && StampedAs(crc, os) && T.Proper(os)
    ensures LebOk(crc, AddTrans(b, os)) && Layout(AddTrans(b, os).items) == Layout(b.items) + Concat(os)
  {
    hide Layout, Blobs, AsItems, Locate, Concat, ItemOk;
    var ls := Locate(os, |Layout(b.items)|);
    TransLayout(b, os);
    AsItemsOk(crc, os);
    T.WrittenSnoc(b.groups, ls);
    StampsMatch(crc, os, |Layout(b.items)|);
    TagsAppend(Objs(b), ls);
    ItemsAppend(crc, b.items, AsItems(os));
    NoTags(T.Written(b.groups));
    NoTags(T.Written(AddTrans(b, os).groups));
  }

  /** The records of a transaction follow those before. */
  lemma TransRecords(lnum: nat, b: Leb, os: seq<seq<byte>>)
    ensures Recs(lnum, AddTrans(b, os)) == Recs(lnum, b) + RecsOf(lnum, Locate(os, |Layout(b.items)|))
  {
    hide Locate, Layout;
    T.WrittenSnoc(b.groups, Locate(os, |Layout(b.items)|));
    RecsAppend(lnum, T.Flatten(b.groups), Locate(os, |Layout(b.items)|));
  }

  lemma TagsAppend(a: seq<Located>, b: seq<Located>)
    ensures Tags(a + b) == Tags(a) + Tags(b)
  {
  }

  lemma ItemsAppend(crc: Crc, a: seq<Item>, b: seq<Item>)
    requires (forall i :: i in a ==> ItemOk(crc, i)) && (forall i :: i in b ==> ItemOk(crc, i))
    ensures forall i :: i in a + b ==> ItemOk(crc, i)
  {
  }

  lemma StampsMatch(crc: Crc, os: seq<seq<byte>>, at: nat)
    requires StampedAs(crc, os)
    ensures Tags(Locate(os, at)) == T.Stamp(Locate(os, at))
  {
    var ls := Locate(os, at);
    forall i | 0 <= i < |os| ensures Tags(ls)[i] == T.Stamp(ls)[i] {
      LocateAt(os, at, i);
    }
  }

  // ---- what a mount finds -----------------------------------------------------------------------------

  /** The records a scan of the erase-block replays. */
  function ScanRecs(crc: Crc, lnum: nat, leb: seq<byte>): seq<Rec> {
    RecsOf(lnum, T.Run(T.Scan([], []), Tags(ScanFrom(crc, leb, 0).0)).done)
  }

  lemma {:induction false} WrittenItems(bs: seq<Located>, gs: seq<seq<Located>>, part: seq<Located>)
    requires Tags(bs) == T.Written(gs) + Tags(part)
    ensures bs == T.Flatten(gs) + part
    decreases |gs|
  {
    if gs != [] {
      var n := |gs[0]|;
      var w := T.Written(gs) + Tags(part);
      assert w[..n] == T.Stamp(gs[0]) && w[n..] == T.Written(gs[1..]) + Tags(part);
      assert Tags(bs[n..]) == w[n..];
      WrittenItems(bs[n..], gs[1..], part);
      forall i | 0 <= i < n ensures bs[i] == gs[0][i] {
        assert Tags(bs)[i] == w[..n][i];
      }
      assert bs == bs[..n] + bs[n..] && bs[..n] == gs[0];
      assert gs[0] + (T.Flatten(gs[1..]) + part) == T.Flatten(gs) + part;
    } else {
      assert T.Written(gs) + Tags(part) == Tags(part);
      SameTags(bs, part);
    }
  }

  lemma SameTags(a: seq<Located>, b: seq<Located>)
    requires Tags(a) == Tags(b)
    ensures a == b && [] + b == b
  {
    forall i | 0 <= i < |a| ensures a[i] == b[i] {
      assert Tags(a)[i] == Tags(b)[i];
    }
  }

  /** The objects of an erase-block are those of its transactions. */
  lemma ObjsAre(crc: Crc, b: Leb)
    requires LebOk(crc, b)
    ensures Objs(b) == T.Flatten(b.groups) + b.part
  {
    WrittenItems(Objs(b), b.groups, b.part);
  }

  /** The erase-block as it is on flash: what was written, and erased bytes. */
  ghost predicate OnFlash(leb: seq<byte>, b: Leb) {
    && |Layout(b.items)| <= |leb| && leb[..|Layout(b.items)|] == Layout(b.items)
    && forall i :: |Layout(b.items)| <= i < |leb| ==> leb[i] == 0xff
  }

  /** The beginning of a transaction leaves nothing replayed. */
  lemma PartReplay(done: seq<Located>, part: seq<Located>)
    requires PartOk(part)
    ensures T.Run(T.Scan(done, []), Tags(part)).done == done
  {
    if part != [] {
      var t :| Begins(part, t);
      T.Unfinished(done, t, |part|);
    }
  }

  /** A scan finds exactly the records of the whole transactions. */
  lemma ScanFinds(crc: Crc, lnum: nat, leb: seq<byte>, b: Leb)
    requires LebOk(crc, b) && OnFlash(leb, b)
    ensures ScanRecs(crc, lnum, leb) == Recs(lnum, b) && ScanFrom(crc, leb, 0).1 == NoEnt
  {
    hide Layout, Blobs, T.Run, PartOk, Tags, ScanFrom, RecsOf;
    ErasedIsBlank(crc, leb, |Layout(b.items)|);
    assert leb[0..0 + |Layout(b.items)|] == leb[..|Layout(b.items)|];
    ScanLayout(crc, leb, b.items, 0);
    T.RunAppend(T.Scan([], []), T.Written(b.groups), Tags(b.part));
    T.WholeTransactions([], b.groups);
    assert [] + T.Flatten(b.groups) == T.Flatten(b.groups);
    PartReplay(T.Flatten(b.groups), b.part);
  }

  /** A transaction of more than 2048 objects can be written, but a scan does not find it. */
  lemma LongTransLost(crc: Crc, lnum: nat, leb: seq<byte>, os: seq<seq<byte>>)
    requires |os| > T.MAX_OBJ_PER_TRANS && StampedAs(crc, os)
    requires OnFlash(leb, AddTrans(EMPTY_LEB, os))
    ensures ScanRecs(crc, lnum, leb) == [] && ScanFrom(crc, leb, 0).1 == NoEnt
  {
    hide Layout, Blobs, T.Run, Tags, ScanFrom, AsItems, Locate, Sealed;
    var ls := Locate(os, |Layout(EMPTY_LEB.items)|);
    var items := EMPTY_LEB.items + AsItems(os);
    TransLayout(EMPTY_LEB, os);
    NoBlobs(0);
    assert Objs(EMPTY_LEB) + ls == ls;
    AsItemsOk(crc, os);
    assert items == AsItems(os);
    ErasedIsBlank(crc, leb, |Layout(items)|);
    assert leb[0..0 + |Layout(items)|] == leb[..|Layout(items)|];
    ScanLayout(crc, leb, items, 0);
    StampsMatch(crc, os, |Layout(EMPTY_LEB.items)|);
    T.TooLong(ls);
  }
}
