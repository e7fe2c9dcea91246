/** Stamping the objects of a transaction and recording them. */
module StoreStamp {
  import opened ObjectId
  import opened LogIndex
  import LS = LogSummary
  import opened ObjFormat
  import opened SumFormat
  import opened LebModel
  import opened StoreSteps
  import opened StoreSync
  import opened StoreWrite
  import T = Transactions

  /** An object as handed to the store: an inode, data, directory entries or a deletion. */
  predicate Writable(o: seq<byte>) {
    Prepared(o) && HasId(o) && IndexedType(IdOf(o))
  }

  /** `p` is `o` up to the header fields that the store fills in. */
  predicate SameObject(o: seq<byte>, p: seq<byte>) {
    |o| == |p| >= CH_SZ && TypeOf(o) == TypeOf(p) && o[24..] == p[24..]
  }

  predicate Stamps(os: seq<seq<byte>>, ps: seq<seq<byte>>) {
    |os| == |ps| && forall i :: 0 <= i < |os| ==> SameObject(os[i], ps[i])
  }

  predicate TransIs(p: seq<byte>, trans: nat) {
    |p| >= CH_SZ && TransOf(p) == trans
  }

  function PackObj(crc: Crc, o: seq<byte>, sq: U64, trans: byte): (p: seq<byte>)
    requires Writable(o)
    ensures StampOk(crc, o, p, sq, trans)
  {
    Packed(crc, o, sq, trans);
    var p := PackHeader(crc, o, sq, trans);
    assert p[24..32] == p[24..][..8] && o[24..32] == o[24..][..8];
    p
  }

  predicate CanPack(os: seq<seq<byte>>, sq: nat) {
    (forall o :: o in os ==> Writable(o)) && sq + |os| < TWO64
  }

  lemma CanPackAt(os: seq<seq<byte>>, sq: nat, i: nat)
    requires CanPack(os, sq) && i < |os|
    ensures Writable(os[i]) && sq + 1 + i < TWO64
  {
  }

  /** The objects of a transaction with their headers filled in, numbered from `sq + 1`. */
  function PackAll(crc: Crc, os: seq<seq<byte>>, sq: nat): (ps: seq<seq<byte>>)
    requires CanPack(os, sq)
    ensures |ps| == |os|
  {
    seq(|os|, i requires 0 <= i < |os| => PackAt(crc, os, sq, i))
  }

  function PackAt(crc: Crc, os: seq<seq<byte>>, sq: nat, i: nat): seq<byte>
    requires CanPack(os, sq) && i < |os|
  {
    PackObj(crc, os[i], sq + 1 + i, T.GetObjTrans(|os|, i))
  }

  ghost predicate IsPacked(crc: Crc, os: seq<seq<byte>>, ps: seq<seq<byte>>, sq: nat) {
    CanPack(os, sq) && Stamps(os, ps) && TransOk(crc, ps, sq) && ps == PackAll(crc, os, sq)
  }

  lemma PackedNone(crc: Crc, os: seq<seq<byte>>, sq: nat)
    requires CanPack(os, sq)
    ensures [] == PackAll(crc, os, sq)[..0] && PackAll(crc, os, sq)[..|os|] == PackAll(crc, os, sq)
  {
    hide PackAt;
  }

  lemma PackedMore(crc: Crc, os: seq<seq<byte>>, sq: nat, i: nat)
    requires CanPack(os, sq) && i < |os|
    ensures PackAll(crc, os, sq)[..i + 1] ==
            PackAll(crc, os, sq)[..i] + [PackObj(crc, os[i], sq + 1 + i, T.GetObjTrans(|os|, i))]
  {
    hide PackObj;
  }

  /** `p` is `o` with its header filled in. */
  ghost predicate StampOk(crc: Crc, o: seq<byte>, p: seq<byte>, sq: nat, trans: nat) {
    Sealed(crc, p) && TransIs(p, trans) && Numbered(p, sq) && SameObject(o, p)
  }

  /** `ps` are the first of the objects `os`, with their headers filled in. */
  ghost predicate StampedSoFar(crc: Crc, os: seq<seq<byte>>, ps: seq<seq<byte>>, sqnum: nat) {
    && |ps| <= |os|
    && forall j :: 0 <= j < |ps| ==> StampOk(crc, os[j], ps[j], sqnum + 1 + j, T.GetObjTrans(|os|, j))
  }

  lemma StampedNone(crc: Crc, os: seq<seq<byte>>, sqnum: nat)
    ensures StampedSoFar(crc, os, [], sqnum)
  {
  }

  lemma StampedMore(crc: Crc, os: seq<seq<byte>>, ps: seq<seq<byte>>, sqnum: nat, p: seq<byte>)
    requires StampedSoFar(crc, os, ps, sqnum) && |ps| < |os|
    requires StampOk(crc, os[|ps|], p, sqnum + 1 + |ps|, T.GetObjTrans(|os|, |ps|))
    ensures StampedSoFar(crc, os, ps + [p], sqnum)
  {
    hide StampOk, T.GetObjTrans;
  }

  lemma AllStamped(crc: Crc, os: seq<seq<byte>>, ps: seq<seq<byte>>, sqnum: nat)
    requires |os| == |ps| && StampedSoFar(crc, os, ps, sqnum)
    ensures TransOk(crc, ps, sqnum) && Stamps(os, ps)
  {
    hide Sealed, Numbered, SameObject, T.GetObjTrans;
    assert forall j :: 0 <= j < |os| ==> StampOk(crc, os[j], ps[j], sqnum + 1 + j, T.GetObjTrans(|os|, j));
  }

  lemma {:induction false} SameSerial(os: seq<seq<byte>>, ps: seq<seq<byte>>)
    requires Stamps(os, ps)
    ensures |Concat(os)| == |Concat(ps)|
    decreases |os|
  {
    if os != [] {
      SameSerial(os[..|os| - 1], ps[..|ps| - 1]);
      assert SameObject(os[|os| - 1], ps[|ps| - 1]);
    }
  }

  lemma ConcatNothing()
    ensures Concat([]) == []
  {
  }

  lemma ConcatNext(ps: seq<seq<byte>>, i: nat)
    requires i < |ps|
    ensures Concat(ps[..i + 1]) == Concat(ps[..i]) + ps[i] && |Concat(ps[..i + 1])| <= |Concat(ps)|
    decreases |ps| - i
  {
    assert ps[..i + 1][..i] == ps[..i];
    if i + 1 < |ps| {
      ConcatNext(ps, i + 1);
    } else {
      assert ps[..i + 1] == ps;
    }
  }

  /** The size of a transaction. */
  method SerialSize(ps: seq<seq<byte>>) returns (sz: nat)
    ensures sz == |Concat(ps)|
  {
    hide Concat;
    sz := 0;
    ConcatNothing();
    for i := 0 to |ps|
      invariant sz == |Concat(ps[..i])|
    {
      ConcatNext(ps, i);
      sz := sz + |ps[i]|;
    }
    assert ps[..|ps|] == ps;
  }

  lemma PutNothing(w: WBuf)
    requires w.used <= |w.buf|
    ensures Concat([]) == [] && Put(w, []) == w
  {
    assert w.buf[..w.used] + [] + w.buf[w.used..] == w.buf;
  }

  lemma PutTwice(w: WBuf, a: seq<byte>, b: seq<byte>)
    requires w.used + |a| + |b| <= |w.buf| && |a| + |b| <= w.avail
    ensures Put(Put(w, a), b) == Put(w, a + b)
  {
    var buf := Append(w.buf, w.used, a);
    assert Append(buf, w.used + |a|, b) == Append(w.buf, w.used, a + b);
  }

  /** A transaction with enough room reserved leaves room for the summary that records it. */
  lemma WriteRoom(crc: Crc, ps: seq<seq<byte>>, sq: nat, l: nat, at: nat, base: seq<Rec>)
    requires TransOk(crc, ps, sq)
    ensures SumSize(|LS.SumAll(base + RecsOf(l, Locate(ps, at)))|) <= SumSize(|LS.SumAll(base)| + |ps|)
  {
    hide RecsOf, Locate, LS.SumAll, StampedAs, SumSize;
    assert forall i :: 0 <= i < |ps| ==> Numbered(ps[i], sq + 1 + i) && HasId(ps[i]);
    TransRecs(l, ps, at);
    SumGrows(base, RecsOf(l, Locate(ps, at)));
    SumSizeMonotone(|LS.SumAll(base + RecsOf(l, Locate(ps, at)))|, |LS.SumAll(base)| + |ps|);
  }

  lemma RecsStart(l: nat, at: nat, log: seq<Rec>, base: seq<Rec>)
    ensures Concat([]) == [] && RecsOf(l, Locate([], at)) == [] && log + [] == log && base + [] == base
  {
  }

  lemma RecsNext(l: nat, ps: seq<seq<byte>>, i: nat, at: nat, log: seq<Rec>, base: seq<Rec>)
    requires i < |ps| && HasId(ps[i])
    ensures var rs, rs' := RecsOf(l, Locate(ps[..i], at)), RecsOf(l, Locate(ps[..i + 1], at));
            var r := RecAt(l, (at + |Concat(ps[..i])|, ps[i]));
            && |Concat(ps[..i + 1])| == |Concat(ps[..i])| + |ps[i]|
            && Replay(map[], log + rs') == Apply(Replay(map[], log + rs), r)
            && LS.SumAll(base + rs') == LS.Record(LS.SumAll(base + rs), r, 0)
  {
    hide RecsOf, Locate, Concat, Replay, Apply, LS.SumAll, LS.Record, HasId;
    ConcatNext(ps, i);
    TransRecsSnoc(l, ps[..i + 1], at);
    assert ps[..i + 1][..i] == ps[..i];
    var rs := RecsOf(l, Locate(ps[..i], at));
    var r := RecAt(l, (at + |Concat(ps[..i])|, ps[i]));
    assert log + (rs + [r]) == (log + rs) + [r] && base + (rs + [r]) == (base + rs) + [r];
    ReplaySnoc(map[], log + rs, r);
    SumSnoc(base + rs, r);
  }
}
