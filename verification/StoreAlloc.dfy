/** Free erase-blocks, and opening a new one. */
module StoreAlloc {
  import opened LogIndex
  import LS = LogSummary
  import opened ObjFormat
  import opened SumFormat
  import opened LebModel
  import opened StoreModel
  import opened StoreSteps
  import opened StoreWrite
  import opened StoreMount
  import T = Transactions

  /** The erase-blocks in use are those of the history, and the others are counted as free. */
  ghost predicate FreeOk(lebCnt: nat, used: seq<bool>, nbFree: int, live: Lebs) {
    && |used| == lebCnt && nbFree == lebCnt - |live|
    && (forall l :: l in live ==> LOG_FST_LNUM <= l < lebCnt)
    && forall l :: 0 <= l < lebCnt ==> (used[l] <==> l in live)
  }

  predicate EnoughFree(nbFree: int, nbReservedGc: nat, nbReservedDel: nat, del: bool) {
    nbFree >= nbReservedGc && (del || nbFree >= nbReservedDel + nbReservedGc)
  }

  /** The first unused erase-block from `i` on, or one past the end. */
  function FirstUnused(used: seq<bool>, i: nat): nat
    decreases |used| - i
  {
    if i >= |used| then |used| else if !used[i] then i else FirstUnused(used, i + 1)
  }

  /** An erase-block can be had for this kind of operation. */
  predicate CanAlloc(used: seq<bool>, nbFree: int, nbReservedGc: nat, nbReservedDel: nat, del: bool) {
    EnoughFree(nbFree, nbReservedGc, nbReservedDel, del) && FirstUnused(used, LOG_FST_LNUM) < |used|
  }

  lemma {:induction false} FirstUnusedIs(used: seq<bool>, i: nat)
    ensures var l := FirstUnused(used, i);
            l < |used| ==> i <= l && !used[l] && forall k :: i <= k < l ==> used[k]
    decreases |used| - i
  {
    if i < |used| && used[i] {
      FirstUnusedIs(used, i + 1);
    }
  }

  function Opened(h: Hist, l: nat): Hist {
    h.(live := h.live[l := EMPTY_LEB])
  }

  lemma OpenedHist(crc: Crc, size: nat, flash: Flash, h: Hist, l: nat)
    requires HistOk(crc, size, flash, h) && l !in h.live
    ensures HistOk(crc, size, flash, Opened(h, l))
  {
    hide LebOk, LiveOk, FlashOk, LogOk, Layout, T.Flatten;
    EmptyFits(crc, size, l);
    assert h.log + [] == h.log;
    LiveChanged(crc, size, flash, h, l, EMPTY_LEB, []);
    assert Opened(h, l) == h.(live := h.live[l := EMPTY_LEB], log := h.log + []);
  }

  lemma EmptyFits(crc: Crc, size: nat, l: nat)
    ensures Fits(crc, size, l, EMPTY_LEB) && Recs(l, EMPTY_LEB) == []
  {
    EmptyLebOk(crc);
    NoRecs(l);
  }

  lemma OpenedTail(crc: Crc, size: nat, flash: Flash, h: Hist, l: nat)
    requires HistOk(crc, size, flash, h) && l !in h.live && h.synced == h.log
    ensures TailOk(Opened(h, l), l)
  {
    hide LiveOk, FlashOk, Recs, LebOk, Layout, Rising;
    EmptyFits(crc, size, l);
    var h' := Opened(h, l);
    assert h.log[|h.log|..] == [] && h.log[..|h.log|] == h.log;
    forall r | r in h.log ensures r.addr.lnum != l {
      assert r in Members(h.log);
      var k :| k in h.live && r in Recs(k, h.live[k]);
      TheLeb(crc, size, flash, h, k);
      var o := RecInLeb(crc, size, k, h.live[k], r);
    }
  }

  lemma OpenedBuf(size: nat, minIo: nat, h: Hist, w: WBuf, es: seq<LS.SumEntry>, l: nat)
    requires IoOk(size, minIo) && BufOk(size, minIo, h, w, es) && w.avail == 0 && l !in h.live && l != 0
    requires h.closed <= h.live.Keys && TailOk(Opened(h, l), l)
    ensures BufOk(size, minIo, Opened(h, l), WBuf(l, w.buf, 0, size, 0), es)
  {
    hide TailOk, Extends;
    assert h.disk == h.live;
    var h', w' := Opened(h, l), WBuf(l, w.buf, 0, size, 0);
    assert Layout([]) == [];
    NoRecs(l);
    assert LS.SumAll([]) == [];
    forall k | k in h'.live && k != l ensures OnDisk(h', k) {
      assert OnDisk(h, k);
    }
    assert OpenOk(minIo, h', w', es);
  }

  lemma OpenedFree(lebCnt: nat, used: seq<bool>, nbFree: int, live: Lebs, l: nat)
    requires FreeOk(lebCnt, used, nbFree, live) && LOG_FST_LNUM <= l < lebCnt && !used[l]
    ensures l !in live && FreeOk(lebCnt, used[l := true], nbFree - 1, live[l := EMPTY_LEB])
  {
    var live' := live[l := EMPTY_LEB];
    assert live'.Keys == live.Keys + {l};
    assert |live'| == |live'.Keys| && |live| == |live.Keys|;
  }

  lemma ClosedLive(crc: Crc, size: nat, flash: Flash, h: Hist)
    requires HistOk(crc, size, flash, h)
    ensures h.closed <= h.live.Keys
  {
  }

  lemma NoBuf(size: nat, minIo: nat, h: Hist, w: WBuf, es: seq<LS.SumEntry>)
    requires minIo > 0 && BufOk(size, minIo, h, w, es) && w.avail == 0
    ensures BufOk(size, minIo, h, w.(lnum := 0), es)
  {
    hide Layout;
    forall l | l in h.live ensures OnDisk(h, l) {
    }
  }

  /** Opening the first unused erase-block, and failing to. */
  lemma NewLebStep(crc: Crc, size: nat, minIo: nat, flash: Flash, h: Hist, w: WBuf, es: seq<LS.SumEntry>,
                   objs: seq<seq<byte>>, lebCnt: nat, used: seq<bool>, nbFree: int)
    requires IoOk(size, minIo) && HistOk(crc, size, flash, h) && BufOk(size, minIo, h, w, es) && w.avail == 0
    requires DataOk(h.live, h.log, objs) && FreeOk(lebCnt, used, nbFree, h.live)
    ensures |used| == lebCnt && BufOk(size, minIo, h, w.(lnum := 0), es)
    ensures var l := FirstUnused(used, LOG_FST_LNUM);
            var h' := Opened(h, l);
            l < lebCnt ==>
              && HistOk(crc, size, flash, h') && BufOk(size, minIo, h', WBuf(l, w.buf, 0, size, 0), es)
              && DataOk(h'.live, h'.log, objs) && FreeOk(lebCnt, used[l := true], nbFree - 1, h'.live)
              && Recs(l, h'.live[l]) == []
  {
    hide HistOk, DataOk, Layout, SumSize, TailOk, Recs, OpenOk;
    NoBuf(size, minIo, h, w, es);
    var l := FirstUnused(used, LOG_FST_LNUM);
    if l < lebCnt {
      FirstUnusedIs(used, LOG_FST_LNUM);
      OpenedFree(lebCnt, used, nbFree, h.live, l);
      OpenedHist(crc, size, flash, h, l);
      OpenedTail(crc, size, flash, h, l);
      ClosedLive(crc, size, flash, h);
      OpenedBuf(size, minIo, h, w, es, l);
      DataKept(h.live, l, EMPTY_LEB, h.log, objs);
      EmptyFits(crc, size, l);
    }
  }

  lemma WroteFree(lebCnt: nat, used: seq<bool>, nbFree: int, h: Hist, l: nat, ps: seq<seq<byte>>, at: nat)
    requires l in h.live && FreeOk(lebCnt, used, nbFree, h.live)
    ensures FreeOk(lebCnt, used, nbFree, Wrote(h, l, ps, at).live)
  {
    hide AddTrans, RecsOf, Locate;
    var live' := Wrote(h, l, ps, at).live;
    assert live'.Keys == h.live.Keys;
    assert |live'| == |live'.Keys| && |h.live| == |h.live.Keys|;
  }

  /** Which erase-blocks are used, and how many are counted as free. */
  datatype Space = Space(used: seq<bool>, nbFree: int)

  /** The first unused erase-block is taken. */
  function Taken(s: Space): Space
    requires FirstUnused(s.used, LOG_FST_LNUM) < |s.used|
  {
    Space(s.used[FirstUnused(s.used, LOG_FST_LNUM) := true], s.nbFree - 1)
  }

  /** Whether a transaction finds room, and the space afterwards. `fits`: in the open erase-block, if
      there is one; `fitsEmpty`: in an empty one with the reserve for its summary. */
  function WriteSpace(s: Space, open: bool, fits: bool, fitsEmpty: bool, gc: nat, del: nat,
                      deletes: bool): (bool, Space) {
    if open then
      if fits then (true, s)
      else if CanAlloc(s.used, s.nbFree, gc, del, deletes) then (true, Taken(s)) else (false, s)
    else if !CanAlloc(s.used, s.nbFree, gc, del, deletes) then (false, s)
    else if fitsEmpty then (true, Taken(s))
    else if CanAlloc(Taken(s).used, Taken(s).nbFree, gc, del, deletes) then (true, Taken(Taken(s)))
    else (false, Taken(s))
  }

  // ---- the arithmetic of free erase-blocks ------------------------------------------------------------------

  /** The erase-blocks that can be taken: the first three are not for the log. */
  ghost function FreeBlocks(used: seq<bool>): set<nat> {
    set l | 3 <= l < |used| && !used[l]
  }

  lemma {:induction false} FirstUnusedIff(used: seq<bool>, i: nat)
    ensures FirstUnused(used, i) < |used| <==> exists l :: i <= l < |used| && !used[l]
    decreases |used| - i
  {
    if i < |used| && used[i] {
      FirstUnusedIff(used, i + 1);
    }
  }

  /** An erase-block can be had exactly if one is unused and the reserves that the operation must leave alone
      are there. */
  lemma CanAllocIff(used: seq<bool>, nbFree: int, gc: nat, del: nat, deletes: bool)
    ensures CanAlloc(used, nbFree, gc, del, deletes) <==>
            (exists l :: 3 <= l < |used| && !used[l]) && nbFree >= gc + if deletes then 0 else del
  {
    FirstUnusedIff(used, 3);
  }

  /** The count is that of the erase-blocks that can be taken and of the first three. */
  ghost predicate Counted(s: Space) {
    s.nbFree == if |s.used| < 3 then |s.used| else 3 + |FreeBlocks(s.used)|
  }

  lemma FreeCounted(lebCnt: nat, used: seq<bool>, nbFree: int, live: Lebs)
    requires FreeOk(lebCnt, used, nbFree, live)
    ensures Counted(Space(used, nbFree))
  {
    assert |live| == |live.Keys|;
    if lebCnt < 3 {
      assert live.Keys == {};
    } else {
      UptoIs(3, lebCnt);
      var all := Upto(3, lebCnt);
      assert FreeBlocks(used) == all - live.Keys;
      assert live.Keys <= all;
    }
  }

  ghost function Upto(a: nat, b: nat): (r: set<nat>)
    decreases b
  {
    if b <= a then {} else Upto(a, b - 1) + {b - 1}
  }

  lemma {:induction false} UptoIs(a: nat, b: nat)
    requires a <= b
    ensures |Upto(a, b)| == b - a && forall l :: l in Upto(a, b) <==> a <= l < b
    decreases b
  {
    if a < b {
      UptoIs(a, b - 1);
    }
  }

  lemma SomeFree(s: Space)
    requires Counted(s)
    ensures s.nbFree > 3 <==> exists l :: 3 <= l < |s.used| && !s.used[l]
  {
    if l :| 3 <= l < |s.used| && !s.used[l] {
      assert l in FreeBlocks(s.used);
    }
    if s.nbFree > 3 {
      var l :| l in FreeBlocks(s.used);
    }
  }

  lemma TakenCounted(s: Space)
    requires Counted(s) && FirstUnused(s.used, LOG_FST_LNUM) < |s.used|
    ensures Counted(Taken(s))
  {
    FirstUnusedIs(s.used, LOG_FST_LNUM);
    var l := FirstUnused(s.used, LOG_FST_LNUM);
    assert FreeBlocks(Taken(s).used) == FreeBlocks(s.used) - {l};
  }

  /** How many free erase-blocks an operation needs to take one. */
  ghost function Needed(gc: nat, del: nat, deletes: bool): nat {
    var reserved := gc + if deletes then 0 else del;
    if reserved > 3 then reserved else 4
  }

  lemma AllocIff(s: Space, gc: nat, del: nat, deletes: bool)
    requires Counted(s)
    ensures CanAlloc(s.used, s.nbFree, gc, del, deletes) <==> s.nbFree >= Needed(gc, del, deletes)
  {
    CanAllocIff(s.used, s.nbFree, gc, del, deletes);
    SomeFree(s);
  }

  /** When a transaction is written and what it costs, in numbers of free erase-blocks. */
  lemma WriteSpaceIs(s: Space, open: bool, fits: bool, fitsEmpty: bool, gc: nat, del: nat, deletes: bool)
    requires Counted(s) && (fits ==> open)
    ensures var (ok, z) := WriteSpace(s, open, fits, fitsEmpty, gc, del, deletes);
            var n := Needed(gc, del, deletes);
            && (ok <==> fits || (s.nbFree >= n && (open || fitsEmpty || s.nbFree - 1 >= n)))
            && z.nbFree == s.nbFree - (if fits || s.nbFree < n then 0
                                       else if open || fitsEmpty || s.nbFree - 1 < n then 1 else 2)
  {
    hide CanAlloc, Counted, Needed;
    AllocIff(s, gc, del, deletes);
    if CanAlloc(s.used, s.nbFree, gc, del, deletes) {
      CanAllocSome(s, gc, del, deletes);
      TakenCounted(s);
      AllocIff(Taken(s), gc, del, deletes);
    }
  }

  lemma CanAllocSome(s: Space, gc: nat, del: nat, deletes: bool)
    requires CanAlloc(s.used, s.nbFree, gc, del, deletes)
    ensures FirstUnused(s.used, LOG_FST_LNUM) < |s.used|
  {
  }

  /** Whether a transaction of `m` objects and `size` bytes is written, and how many free erase-blocks are left,
      in numbers: `avail` bytes are left in the open erase-block, with `n` entries in its summary. */
  ghost predicate RoomTold(nbFree: int, avail: nat, n: nat, m: nat, size: nat, lebSize: nat, gc: nat, del: nat,
                           deletes: bool, ok: bool, nbFree': int) {
    var fits := avail > 0 && avail >= size + ((28 + 26 * n + 4 + 7) / 8 * 8 + 26 * m + 7) / 8 * 8;
    var one := avail > 0 || lebSize >= size + (32 + 26 * m + 7) / 8 * 8;
    var reserved := gc + if deletes then 0 else del;
    var need := if reserved > 3 then reserved else 4;
    && (ok <==> fits || (nbFree >= need && (one || nbFree - 1 >= need)))
    && nbFree' == nbFree - if fits || nbFree < need then 0 else if one || nbFree - 1 < need then 1 else 2
  }

  lemma WriteSpaceArith(s: Space, avail: nat, n: nat, m: nat, size: nat, lebSize: nat, gc: nat, del: nat, deletes: bool)
    requires Counted(s)
    ensures var (ok, z) := WriteSpace(s, avail > 0, avail > 0 && avail >= size + SumSizeWithExtra(n, m),
                                      lebSize >= size + SumSizeWithExtra(0, m), gc, del, deletes);
            RoomTold(s.nbFree, avail, n, m, size, lebSize, gc, del, deletes, ok, z.nbFree)
  {
    hide WriteSpace, Counted, SumSizeWithExtra;
    SumSizeIs(n, m);
    SumSizeIs(0, m);
    WriteSpaceIs(s, avail > 0, avail > 0 && avail >= size + SumSizeWithExtra(n, m),
                 lebSize >= size + SumSizeWithExtra(0, m), gc, del, deletes);
  }
}
