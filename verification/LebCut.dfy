/** An erase-block whose last write to flash was cut short: what a scan finds, and when it fails. */
module LebCut {
  import LS = LogSummary
  import opened ObjFormat
  import opened LebModel
  import opened StoreModel
  import T = Transactions

  /** Object `x` lies on both sides of `p`. */
  predicate Across(x: Located, p: nat) {
    x.0 < p < x.0 + |x.1|
  }

  ghost predicate Straddles(b: Leb, p: nat) {
    exists x :: x in Objs(b) && Across(x, p)
  }

  // ---- cutting between objects ------------------------------------------------------------------------

  /** The first `p` bytes of a layout, when no object lies across the cut. */
  function CutItems(items: seq<Item>, p: nat): seq<Item> {
    if p == 0 || items == [] then []
    else if |ItemBytes(items[0])| <= p then [items[0]] + CutItems(items[1..], p - |ItemBytes(items[0])|)
    else [Gap(p)]
  }

  /** The objects at the beginning of `xs` that end by `q`. */
  function EndedBy(xs: seq<Located>, q: nat): seq<Located> {
    if xs == [] || xs[0].0 + |xs[0].1| > q then [] else [xs[0]] + EndedBy(xs[1..], q)
  }

  lemma {:induction false} EndedPrefix(xs: seq<Located>, q: nat)
    ensures EndedBy(xs, q) <= xs
  {
    if xs != [] && xs[0].0 + |xs[0].1| <= q {
      EndedPrefix(xs[1..], q);
      assert xs == [xs[0]] + xs[1..];
    }
  }

  lemma {:induction false} EndedAtLeast(xs: seq<Located>, q: nat, k: nat)
    requires k <= |xs| && forall i :: 0 <= i < k ==> xs[i].0 + |xs[i].1| <= q
    ensures |EndedBy(xs, q)| >= k
    decreases k
  {
    if k > 0 {
      EndedAtLeast(xs[1..], q, k - 1);
    }
  }

  ghost predicate Uncut(xs: seq<Located>, p: nat) {
    forall x :: x in xs ==> !Across(x, p)
  }

  lemma CutHead(items: seq<Item>, p: nat)
    requires items != [] && 0 < p
    ensures CutItems(items, p) ==
            if |ItemBytes(items[0])| <= p then [items[0]] + CutItems(items[1..], p - |ItemBytes(items[0])|)
              else [Gap(p)]
  {
  }

  /** Nothing ends at the very beginning. */
  lemma NoneEnded(crc: Crc, items: seq<Item>, at: nat)
    requires forall i :: i in items ==> ItemOk(crc, i)
    ensures EndedBy(Blobs(items, at), at) == []
  {
    hide ItemOk, Layout;
    var xs := Blobs(items, at);
    if xs != [] {
      assert xs[0] in xs;
      BlobPlace(items, at, xs[0]);
      BlobSealed(crc, items, at, xs[0]);
    }
  }

  lemma {:induction false} BlobSealed(crc: Crc, items: seq<Item>, at: nat, x: Located)
    requires (forall i :: i in items ==> ItemOk(crc, i)) && x in Blobs(items, at)
    ensures Sealed(crc, x.1) && |x.1| >= CH_SZ && |x.1| % OBJ_PADDING == 0
    decreases |items|
  {
    hide Blobs;
    NoBlobs(at);
    BlobsHead(items, at);
    assert items[0] in items;
    if !(items[0].Blob? && x == (at, items[0].o)) {
      BlobSealed(crc, items[1..], at + |ItemBytes(items[0])|, x);
    }
  }

  lemma ItemSize(crc: Crc, i: Item)
    requires ItemOk(crc, i)
    ensures |ItemBytes(i)| % OBJ_PADDING == 0 && (i.Blob? ==> ItemBytes(i) == i.o && |i.o| >= CH_SZ)
  {
  }

  /** The cut layout holds the first `p` bytes and the objects that end by `p`. */
  lemma {:induction false} CutLayout(crc: Crc, items: seq<Item>, at: nat, p: nat)
    requires (forall i :: i in items ==> ItemOk(crc, i)) && p <= |Layout(items)| && p % OBJ_PADDING == 0
    requires Uncut(Blobs(items, at), at + p)
    ensures Layout(CutItems(items, p)) == Layout(items)[..p]
    ensures Blobs(CutItems(items, p), at) == EndedBy(Blobs(items, at), at + p)
    ensures forall i :: i in CutItems(items, p) ==> ItemOk(crc, i)
    decreases |items|
  {
    hide Layout, Blobs, ItemBytes, ItemOk, CutItems, EndedBy;
    NoItems(at);
    NoneEnded(crc, items, at);
    if p == 0 || items == [] {
      CutNothing(items, p, at);
    } else {
      var i, rest := items[0], items[1..];
      var n := |ItemBytes(i)|;
      assert i in items;
      ItemSize(crc, i);
      LayoutHead(items);
      BlobsHead(items, at);
      CutHead(items, p);
      if n <= p {
        CutLayout(crc, rest, at + n, p - n);
        CutMore(crc, i, CutItems(rest, p - n), rest, at, p);
      } else {
        CutGap(crc, items, at, p);
      }
    }
  }

  lemma CutNothing(items: seq<Item>, p: nat, at: nat)
    requires p == 0 || items == []
    ensures CutItems(items, p) == [] && EndedBy([], at + p) == []
  {
  }

  lemma CutMore(crc: Crc, i: Item, cut: seq<Item>, rest: seq<Item>, at: nat, p: nat)
    requires ItemOk(crc, i) && |ItemBytes(i)| <= p <= |ItemBytes(i) + Layout(rest)|
    requires Layout(cut) == Layout(rest)[..p - |ItemBytes(i)|]
    requires Blobs(cut, at + |ItemBytes(i)|) == EndedBy(Blobs(rest, at + |ItemBytes(i)|), at + p)
    ensures Layout([i] + cut) == (ItemBytes(i) + Layout(rest))[..p]
    ensures var xs := if i.Blob? then [(at, i.o)] else [];
            Blobs([i] + cut, at) == EndedBy(xs + Blobs(rest, at + |ItemBytes(i)|), at + p)
  {
    hide Layout, Blobs, ItemBytes, EndedBy;
    ItemSize(crc, i);
    assert ([i] + cut)[1..] == cut;
    LayoutHead([i] + cut);
    BlobsHead([i] + cut, at);
    assert (ItemBytes(i) + Layout(rest))[..p] == ItemBytes(i) + Layout(rest)[..p - |ItemBytes(i)|];
    var ys := Blobs(rest, at + |ItemBytes(i)|);
    if i.Blob? {
      EndedHead((at, i.o), ys, at + p);
    } else {
      assert [] + ys == ys && [] + EndedBy(ys, at + p) == EndedBy(ys, at + p);
    }
  }

  lemma EndedHead(x: Located, ys: seq<Located>, q: nat)
    requires x.0 + |x.1| <= q
    ensures EndedBy([x] + ys, q) == [x] + EndedBy(ys, q)
  {
    assert ([x] + ys)[1..] == ys;
  }

  lemma FirstAcross(items: seq<Item>, at: nat, p: nat)
    requires items != [] && items[0].Blob? && 0 < p < |items[0].o|
    ensures !Uncut(Blobs(items, at), at + p)
  {
    var x: Located := (at, items[0].o);
    BlobsHead(items, at);
    assert x in Blobs(items, at) && Across(x, at + p);
  }

  lemma CutGap(crc: Crc, items: seq<Item>, at: nat, p: nat)
    requires items != [] && 0 < p < |ItemBytes(items[0])| && p % OBJ_PADDING == 0 && ItemOk(crc, items[0])
    requires Uncut(Blobs(items, at), at + p) && forall i :: i in items ==> ItemOk(crc, i)
    ensures p <= |Layout(items)| && Layout([Gap(p)]) == Layout(items)[..p]
    ensures Blobs([Gap(p)], at) == EndedBy(Blobs(items, at), at + p) && ItemOk(crc, Gap(p))
  {
    hide Layout, Blobs, EndedBy, Uncut;
    var rest, n := items[1..], |ItemBytes(items[0])|;
    LayoutHead(items);
    BlobsHead(items, at);
    NoItems(at + p);
    LayoutHead([Gap(p)]);
    BlobsHead([Gap(p)], at);
    assert [Gap(p)][1..] == [];
    if items[0].Blob? {
      FirstAcross(items, at, p);
      assert false;
    }
    assert Blobs(items, at) == Blobs(rest, at + n);
    LaterEnd(crc, rest, at + n, at + p);
  }

  /** What starts behind `q` does not end by `q`. */
  lemma LaterEnd(crc: Crc, items: seq<Item>, at: nat, q: nat)
    requires (forall i :: i in items ==> ItemOk(crc, i)) && q <= at
    ensures EndedBy(Blobs(items, at), q) == []
  {
    hide ItemOk, Layout;
    var xs := Blobs(items, at);
    if xs != [] {
      assert xs[0] in xs;
      BlobPlace(items, at, xs[0]);
      BlobSealed(crc, items, at, xs[0]);
    }
  }

  // ---- cutting between transactions ---------------------------------------------------------------------

  /** How many objects end by `p`. */
  function CutCount(b: Leb, p: nat): nat {
    |EndedBy(Objs(b), p)|
  }

  /** The transactions that are complete by `p`. */
  function CutGroups(b: Leb, p: nat): (m: nat)
    ensures m <= |b.groups|
  {
    T.Complete(b.groups, CutCount(b, p))
  }

  /** What is left of `b` when only its first `p` bytes are on flash. */
  function CutLeb(b: Leb, p: nat): Leb {
    var whole := b.groups[..CutGroups(b, p)];
    Leb(CutItems(b.items, p), whole,
        EndedBy(Objs(b), p)[if |T.Flatten(whole)| <= CutCount(b, p) then |T.Flatten(whole)| else 0..])
  }

  lemma TagsSlice(xs: seq<Located>, i: nat, j: nat)
    requires i <= j <= |xs|
    ensures Tags(xs[i..j]) == Tags(xs)[i..j]
  {
  }

  lemma GroupsPrefix(gs: seq<seq<Located>>, m: nat)
    requires m <= |gs| && forall g :: g in gs ==> T.Proper(g)
    ensures forall g :: g in gs[..m] ==> T.Proper(g)
  {
  }

  /** The tags of the first `n` objects, as transactions. */
  lemma CutTags(bs: seq<Located>, gs: seq<seq<Located>>, n: nat)
    requires Tags(bs) == T.Written(gs) && n <= |bs| && forall g :: g in gs ==> T.Proper(g)
    ensures var m := T.Complete(gs, n);
            var f := |T.Flatten(gs[..m])|;
            f <= n && Tags(bs[..n]) == T.Written(gs[..m]) + Tags(bs[f..n]) && PartOk(bs[f..n])
  {
    hide Tags, T.Written, T.Flatten, T.Stamp;
    T.WrittenSize(gs);
    TagsSize(bs);
    T.CutLog(gs, n);
    var m := T.Complete(gs, n);
    var f := |T.Flatten(gs[..m])|;
    TagsSlice(bs, 0, n);
    TagsSlice(bs, f, n);
    assert bs[0..n] == bs[..n];
    var ts := T.Written(gs)[..n];
    assert ts[f..] == Tags(bs)[f..n];
    if m < |gs| {
      assert gs[m] in gs;
      PartBegins(bs, gs, n, m, f);
    } else {
      assert bs[f..n] == [];
      NoTags(T.Written(gs[..m]));
    }
  }

  lemma TagsSize(bs: seq<Located>)
    ensures |Tags(bs)| == |bs|
  {
  }

  lemma PartBegins(bs: seq<Located>, gs: seq<seq<Located>>, n: nat, m: nat, f: nat)
    requires f <= n <= |bs| && m < |gs| && T.Proper(gs[m]) && n - f < |gs[m]|
    requires |Tags(bs)| == |bs| && |T.Written(gs[..m])| == f
    requires Tags(bs)[..n] == T.Written(gs[..m]) + T.Stamp(gs[m])[..n - f] && Tags(bs[f..n]) == Tags(bs)[f..n]
    ensures Tags(bs)[..n] == T.Written(gs[..m]) + Tags(bs[f..n]) && PartOk(bs[f..n])
  {
    hide T.Written;
    var part, k := bs[f..n], n - f;
    var ts := Tags(bs)[..n];
    assert ts[f..] == T.Stamp(gs[m])[..k];
    assert ts[f..] == Tags(bs)[f..n];
    assert Tags(part) == T.Stamp(gs[m])[..k];
    forall i | 0 <= i < k ensures part[i] == gs[m][i] {
      assert Tags(part)[i] == T.Stamp(gs[m])[i];
    }
    assert Begins(part, gs[m]);
  }

  lemma FlattenPrefix(gs: seq<seq<Located>>, m: nat, k: nat)
    requires k <= m <= |gs|
    ensures T.Flatten(gs[..k]) <= T.Flatten(gs[..m])
    decreases m - k
  {
    hide T.Written;
    if k < m {
      FlattenPrefix(gs, m - 1, k);
      T.WrittenSnoc(gs[..m - 1], gs[m - 1]);
      assert gs[..m] == gs[..m - 1] + [gs[m - 1]];
    }
  }

  lemma RecsPrefix(l: nat, a: seq<Located>, b: seq<Located>)
    requires a <= b
    ensures RecsOf(l, a) <= RecsOf(l, b)
  {
    RecsAppend(l, a, b[|a|..]);
    assert b == a + b[|a|..];
  }

  /** Cut between two objects, an erase-block holds the transactions complete by the cut. */
  lemma CutOk(crc: Crc, l: nat, b: Leb, p: nat)
    requires LebOk(crc, b) && b.part == [] && p <= |Layout(b.items)| && p % OBJ_PADDING == 0 && !Straddles(b, p)
    ensures LebOk(crc, CutLeb(b, p)) && Layout(CutLeb(b, p).items) == Layout(b.items)[..p]
    ensures Recs(l, CutLeb(b, p)) <= Recs(l, b)
  {
    hide Layout, CutItems, EndedBy, Tags, T.Written, T.Flatten, RecsOf, ItemOk, PartOk, Blobs;
    var n, m := CutCount(b, p), CutGroups(b, p);
    assert Uncut(Objs(b), 0 + p);
    CutLayout(crc, b.items, 0, p);
    EndedPrefix(Objs(b), p);
    assert EndedBy(Objs(b), p) == Objs(b)[..n];
    NoTags(T.Written(b.groups));
    CutTags(Objs(b), b.groups, n);
    GroupsPrefix(b.groups, m);
    var f := |T.Flatten(b.groups[..m])|;
    assert Objs(b)[..n][f..] == Objs(b)[f..n];
    FlattenPrefix(b.groups, |b.groups|, m);
    assert b.groups[..|b.groups|] == b.groups;
    RecsPrefix(l, T.Flatten(b.groups[..m]), T.Flatten(b.groups));
  }

  /** What had been on flash before stays there. */
  lemma CutKeeps(crc: Crc, l: nat, b0: Leb, b: Leb, p: nat)
    requires LebOk(crc, b0) && LebOk(crc, b) && b0.part == b.part == []
    requires b0.items <= b.items && b0.groups <= b.groups && |Layout(b0.items)| <= p
    ensures Recs(l, b0) <= Recs(l, CutLeb(b, p))
  {
    hide Layout, CutItems, EndedBy, T.Written, T.Flatten, RecsOf, Tags, LebOk, Blobs;
    var k := |Objs(b0)|;
    ObjsAre(crc, b0);
    BlobsPrefix(b0.items, b.items, 0);
    forall i | 0 <= i < k ensures Objs(b)[i].0 + |Objs(b)[i].1| <= p {
      assert Objs(b0)[i] == Objs(b)[i] && Objs(b0)[i] in Objs(b0);
      BlobPlace(b0.items, 0, Objs(b0)[i]);
    }
    EndedAtLeast(Objs(b), p, k);
    EndedPrefix(Objs(b), p);
    ObjsAre(crc, b);
    assert T.Flatten(b.groups) + [] == T.Flatten(b.groups) && T.Flatten(b0.groups) + [] == T.Flatten(b0.groups);
    assert b.groups[..|b0.groups|] == b0.groups;
    CompleteAtLeast(b.groups, CutCount(b, p), |b0.groups|);
    var m := CutGroups(b, p);
    FlattenPrefix(b.groups, m, |b0.groups|);
    RecsPrefix(l, T.Flatten(b0.groups), T.Flatten(b.groups[..m]));
  }

  lemma {:induction false} CompleteAtLeast(gs: seq<seq<Located>>, n: nat, k: nat)
    requires k <= |gs| && |T.Flatten(gs[..k])| <= n
    ensures T.Complete(gs, n) >= k
    decreases k
  {
    if k > 0 {
      assert gs[..k][1..] == gs[1..][..k - 1];
      assert T.Flatten(gs[..k]) == gs[0] + T.Flatten(gs[1..][..k - 1]);
      CompleteAtLeast(gs[1..], n - |gs[0]|, k - 1);
    }
  }

  lemma {:induction false} BlobsPrefix(a: seq<Item>, b: seq<Item>, at: nat)
    requires a <= b
    ensures Blobs(a, at) <= Blobs(b, at)
    decreases |a|
  {
    hide Blobs, ItemBytes;
    NoBlobs(at);
    if a != [] {
      assert a[1..] <= b[1..];
      BlobsPrefix(a[1..], b[1..], at + |ItemBytes(a[0])|);
      BlobsHead(a, at);
      BlobsHead(b, at);
    }
  }

  // ---- cutting through an object --------------------------------------------------------------------------

  /** The checksum tells `o` from its first `k` bytes followed by erased ones. */
  predicate CutSeen(crc: Crc, o: seq<byte>, k: nat) {
    CH_SZ <= k <= |o| ==> crc(o[8..k] + Bytes(0xff, |o| - k)) != crc(o[8..])
  }

  /** The header check refuses an object that was cut short. */
  lemma CutHeader(crc: Crc, leb: seq<byte>, at: nat, o: seq<byte>, k: nat)
    requires Sealed(crc, o) && at + |o| <= |leb| <= LS.DEL_FLAG && 0 < k < |o| && k % OBJ_PADDING == 0
    requires leb[at..at + k] == o[..k] && (forall i :: at + k <= i < |leb| ==> leb[i] == 0xff) && CutSeen(crc, o, k)
    ensures CheckObjHeader(crc, leb, at) == Inval
  {
    hide Bytes;
    assert Word(leb, at) == Word(o, 0) by { Sliced(leb, at, o, k, 0, 4); }
    if k < CH_SZ {
      WordOf(leb[at + 16..at + 16 + 4]);
    } else {
      assert Word(leb, at + 4) == Word(o, 4) by { Sliced(leb, at, o, k, 4, 8); }
      assert Word(leb, at + 16) == Word(o, 16) by { Sliced(leb, at, o, k, 16, 20); }
      CutBody(leb, at, o, k);
    }
  }

  /** It refuses it exactly if the checksum tells; otherwise it takes it for valid. */
  lemma CutHeaderIff(crc: Crc, leb: seq<byte>, at: nat, o: seq<byte>, k: nat)
    requires Sealed(crc, o) && at + |o| <= |leb| <= LS.DEL_FLAG && 0 < k < |o| && k % OBJ_PADDING == 0
    requires leb[at..at + k] == o[..k] && forall i :: at + k <= i < |leb| ==> leb[i] == 0xff
    ensures CheckObjHeader(crc, leb, at) == if CutSeen(crc, o, k) then Inval else Ok
  {
    hide Bytes;
    if CutSeen(crc, o, k) {
      CutHeader(crc, leb, at, o, k);
    } else {
      assert Word(leb, at) == Word(o, 0) by { Sliced(leb, at, o, k, 0, 4); }
      assert Word(leb, at + 4) == Word(o, 4) by { Sliced(leb, at, o, k, 4, 8); }
      assert Word(leb, at + 16) == Word(o, 16) by { Sliced(leb, at, o, k, 16, 20); }
      CutBody(leb, at, o, k);
    }
  }

  lemma Sliced(leb: seq<byte>, at: nat, o: seq<byte>, k: nat, i: nat, j: nat)
    requires at + |o| <= |leb| && k <= |o| && leb[at..at + k] == o[..k] && i <= j <= k
    ensures leb[at + i..at + j] == o[i..j]
  {
    SliceOf(leb, at, o[..k], i, j);
    assert o[..k][i..j] == o[i..j];
  }

  lemma CutBody(leb: seq<byte>, at: nat, o: seq<byte>, k: nat)
    requires at + |o| <= |leb| && 8 <= k <= |o| && leb[at..at + k] == o[..k] && forall i :: at + k <= i < |leb| ==>
               leb[i] == 0xff
    ensures leb[at + 8..at + |o|] == o[8..k] + Bytes(0xff, |o| - k)
  {
    Sliced(leb, at, o, k, 8, k);
    assert leb[at + 8..at + |o|] == leb[at + 8..at + k] + leb[at + k..at + |o|];
    assert leb[at + k..at + |o|] == Bytes(0xff, |o| - k);
  }

  /** The place of an object among the items. */
  lemma {:induction false} BlobSplit(items: seq<Item>, at: nat, x: Located) returns (k: nat)
    requires x in Blobs(items, at)
    ensures k < |items| && items[k] == Blob(x.1) && at + |Layout(items[..k])| == x.0
    ensures |Layout(items[..k])| <= |Layout(items)| && Layout(items)[..|Layout(items[..k])|] == Layout(items[..k])
    decreases |items|
  {
    hide Blobs, Layout, ItemBytes;
    NoItems(at);
    BlobsHead(items, at);
    LayoutHead(items);
    if items[0].Blob? && x == (at, items[0].o) {
      k := 0;
      assert items[..0] == [];
    } else {
      var n := |ItemBytes(items[0])|;
      var j := BlobSplit(items[1..], at + n, x);
      k := j + 1;
      assert items[..k][1..] == items[1..][..j] && items[..k][0] == items[0];
      LayoutHead(items[..k]);
      JoinPrefix(ItemBytes(items[0]), Layout(items[1..]), |Layout(items[1..][..j])|);
    }
  }

  lemma JoinPrefix(a: seq<byte>, b: seq<byte>, n: nat)
    requires n <= |b|
    ensures (a + b)[..|a| + n] == a + b[..n]
  {
  }

  lemma {:induction false} LayoutAligned(crc: Crc, items: seq<Item>)
    requires forall i :: i in items ==> ItemOk(crc, i)
    ensures |Layout(items)| % OBJ_PADDING == 0
  {
    hide Layout, ItemBytes, ItemOk;
    NoItems(0);
    if items != [] {
      assert items[0] in items;
      ItemSize(crc, items[0]);
      LayoutHead(items);
      LayoutAligned(crc, items[1..]);
    }
  }

  /** A scan of an erase-block that was cut through an object fails. */
  lemma CutFails(crc: Crc, leb: seq<byte>, b: Leb, p: nat, x: Located)
    requires LebOk(crc, b) && x in Objs(b) && Across(x, p) && CutSeen(crc, x.1, p - x.0) && p % OBJ_PADDING == 0
    requires |Layout(b.items)| <= |leb| <= LS.DEL_FLAG && p <= |Layout(b.items)|
    requires leb[..p] == Layout(b.items)[..p] && forall i :: p <= i < |leb| ==> leb[i] == 0xff
    ensures ScanFrom(crc, leb, 0).1 == Inval
  {
    hide Layout, Blobs, ScanFrom, ItemOk, Sealed, CutSeen, Tags, T.Written, PartOk, CheckObjHeader, Across;
    AcrossIs(x, p);
    var k := BlobSplit(b.items, 0, x);
    var pre := b.items[..k];
    ItemsBefore(crc, b.items, k);
    LayoutAligned(crc, pre);
    BlobPlace(b.items, 0, x);
    BlobSealed(crc, b.items, 0, x);
    EightsLeft(p, x.0);
    CutPlaces(leb, Layout(b.items), p, x.0, x.1);
    ScanItems(crc, leb, pre, 0);
    CutHeader(crc, leb, x.0, x.1, p - x.0);
    ScanStops(crc, leb, x.0);
  }

  lemma AcrossIs(x: Located, p: nat)
    requires Across(x, p)
    ensures x.0 < p < x.0 + |x.1|
  {
  }

  lemma EightsLeft(p: nat, a: nat)
    requires p % 8 == 0 && a % 8 == 0 && a <= p
    ensures (p - a) % 8 == 0
  {
  }

  lemma ItemsBefore(crc: Crc, items: seq<Item>, k: nat)
    requires k <= |items| && forall i :: i in items ==> ItemOk(crc, i)
    ensures forall i :: i in items[..k] ==> ItemOk(crc, i)
  {
  }

  lemma CutPlaces(leb: seq<byte>, s: seq<byte>, p: nat, at: nat, o: seq<byte>)
    requires p <= |s| <= |leb| && leb[..p] == s[..p] && at < p < at + |o| <= |s| && s[at..at + |o|] == o
    ensures leb[0..0 + at] == s[..at] && leb[at..at + (p - at)] == o[..p - at]
  {
    assert leb[..p][..at] == s[..p][..at];
    assert leb[..p][at..] == s[..p][at..];
    assert s[..p][at..] == s[at..p] && s[at..at + |o|][..p - at] == s[at..p];
  }

  lemma ScanStops(crc: Crc, leb: seq<byte>, at: nat)
    requires at < |leb| && CheckObjHeader(crc, leb, at) == Inval
    ensures ScanFrom(crc, leb, at) == ([], Inval)
  {
  }
}
