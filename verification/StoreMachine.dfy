/** The object store as functions on values: what every operation does, step by step as the code does it. */
module StoreMachine {
  import opened ObjectId
  import opened LogIndex
  import LS = LogSummary
  import opened ObjFormat
  import opened SumFormat
  import opened LebModel
  import opened LebCut
  import opened StoreModel
  import opened StoreSteps
  import opened StoreSync
  import opened StoreWrite
  import opened StoreMount
  import opened StoreCut
  import opened StoreAlloc
  import opened StoreCommit
  import opened StoreStamp
  import opened StoreRead
  import opened Pages
  import T = Transactions

  /** The sizes a store is mounted with. */
  datatype Config = Config(crc: Crc, lebSize: nat, minIo: nat, maxIo: nat, lebCnt: nat, gc: nat, del: nat)

  ghost predicate ConfigOk(c: Config) {
    c.minIo > 0 && IoOk(c.lebSize, c.minIo) && c.maxIo > 0 && c.maxIo % c.minIo == 0
  }

  /** The erase-block that is written to: all that was written there, and what of it is on flash. */
  datatype Current = Closed | Open(lnum: nat, leb: Leb, disk: Leb)

  /** The objects written, how many of them are on flash, the numbers of the newest super object, of the
      one found when mounting and of the last object, the current erase-block, and the space. */
  datatype State = State(objs: seq<seq<byte>>, synced: nat, super: nat, mounted: nat, sqnum: nat, cur: Current,
                         space: Space)

  // ---- the current erase-block ----------------------------------------------------------------------------

  ghost function Used(k: Current): nat
    requires k.Open?
  {
    |Layout(k.leb.items)|
  }

  ghost function SyncOffs(k: Current): nat
    requires k.Open?
  {
    |Layout(k.disk.items)|
  }

  /** The summary entries of what was written. */
  ghost function SumEntries(k: Current): seq<LS.SumEntry>
    requires k.Open?
  {
    LS.SumAll(Recs(k.lnum, k.leb))
  }

  ghost function Avail(c: Config, k: Current): int
    requires k.Open?
  {
    c.lebSize - Used(k)
  }

  /** The current erase-block in the history. */
  ghost function CurOf(h: Hist, w: WBuf): Current {
    if w.avail > 0 && w.lnum in h.live then
      Open(w.lnum, h.live[w.lnum], if w.lnum in h.disk then h.disk[w.lnum] else EMPTY_LEB)
    else Closed
  }

  lemma CurIs(c: Config, h: Hist, w: WBuf, es: seq<LS.SumEntry>)
    requires c.minIo > 0 && BufOk(c.lebSize, c.minIo, h, w, es)
    ensures if w.avail > 0 then
              && CurOf(h, w).Open? && w.lnum in h.live && Used(CurOf(h, w)) == w.used
              && SyncOffs(CurOf(h, w)) == w.syncOffs <= w.used
              && SumEntries(CurOf(h, w)) == es && Avail(c, CurOf(h, w)) == w.avail
            else CurOf(h, w) == Closed
  {
    hide LS.SumAll, Recs, TailOk, Extends, SumSize;
    assert Layout([]) == [];
  }

  ghost predicate CurOk(c: Config, k: Current)
    requires k.Open?
  {
    && LebOk(c.crc, k.leb) && LebOk(c.crc, k.disk) && k.leb.part == [] && Extends(k.disk, k.leb)
    && Used(k) % OBJ_PADDING == 0 && c.minIo > 0 && SyncOffs(k) % c.minIo == 0 && SyncOffs(k) <= Used(k)
    && Avail(c, k) >= SumSize(|SumEntries(k)|)
  }

  /** What holds of every state of a run. */
  ghost predicate StateOk(c: Config, a: State) {
    && ConfigOk(c) && a.synced <= |a.objs| && NumbersUpto(a.sqnum, a.objs) && NumbersOk(a)
    && match a.cur
       case Closed => a.synced == |a.objs|
       case Open(l, leb, disk) =>
         && CurOk(c, a.cur) && l < |a.space.used| && a.space.used[l]
         && a.synced == |a.objs| - |Recs(l, leb)| + |Recs(l, disk)| && |Recs(l, leb)| <= |a.objs|
  }

  /** Nothing has been handed out since mounting unless the current number shows it. */
  ghost predicate NumbersOk(a: State) {
    && FIRST_SQNUM < a.super <= a.sqnum && a.mounted < a.sqnum
    && (a.mounted + 1 == a.sqnum ==> a.super == a.mounted && a.synced == |a.objs|)
  }

  // ---- synchronising --------------------------------------------------------------------------------------

  /** A sync writes something. */
  ghost predicate Writes(k: Current, force: bool) {
    k.Open? && (SyncOffs(k) != Used(k) || force)
  }

  /** A sync closes the erase-block with its summary. */
  ghost predicate Closes(c: Config, k: Current, force: bool)
    requires c.minIo > 0 && k.Open?
  {
    force || Align(Used(k), c.minIo) + SumSizeWithExtra(|SumEntries(k)|, 1) + CH_SZ > c.lebSize
  }

  /** Where a sync ends. */
  ghost function SyncEnd(c: Config, k: Current, force: bool): nat
    requires c.minIo > 0 && k.Open?
  {
    if Closes(c, k, force) then c.lebSize else Align(Used(k), c.minIo)
  }

  /** How much a sync pads. */
  ghost function SyncPad(c: Config, k: Current, force: bool): int
    requires c.minIo > 0 && k.Open?
  {
    SyncEnd(c, k, force) - Used(k) - if Closes(c, k, force) then SumSize(|SumEntries(k)|) else 0
  }

  /** How many sequence numbers a sync takes. */
  ghost function SyncTakes(c: Config, k: Current, force: bool): nat
    requires c.minIo > 0 && k.Open?
  {
    PadTakes(SyncPad(c, k, force)) + if Closes(c, k, force) then 1 else 0
  }

  /** What a sync makes of the erase-block: padding, and the summary if it is closed. */
  ghost function SyncLeb(c: Config, k: Current, force: bool, sq: nat): Leb
    requires c.minIo > 0 && k.Open?
  {
    var n := SyncPad(c, k, force);
    var pad := PadOf(c.crc, n, sq + 1);
    if Closes(c, k, force) then
      Finished(k.leb, pad, SumOf(c.crc, SumEntries(k), Used(k) + n, sq + SyncTakes(c, k, force)))
    else Padded(k.leb, pad)
  }

  ghost function AfterSync(c: Config, a: State, force: bool): State
    requires c.minIo > 0
  {
    if !Writes(a.cur, force) then a.(synced := |a.objs|)
    else
      var b := SyncLeb(c, a.cur, force, a.sqnum);
      a.(synced := |a.objs|, sqnum := a.sqnum + SyncTakes(c, a.cur, force),
         cur := if Closes(c, a.cur, force) then Closed else Open(a.cur.lnum, b, b))
  }

  /** Padding to a page, in the history and on values. */
  lemma SyncedPage(c: Config, a: State, h: Hist, w: WBuf, es: seq<LS.SumEntry>, w': WBuf)
    requires c.minIo > 0 && BufOk(c.lebSize, c.minIo, h, w, es) && w.avail > 0 && w.syncOffs < w.used
    requires Align(w.used, c.minIo) + SumSizeWithExtra(|es|, 1) + CH_SZ <= c.lebSize
    requires a.cur == CurOf(h, w) && w'.lnum == w.lnum && w'.avail > 0
    ensures w.lnum in h.live && CurOf(h, w).Open?
    ensures var n := Align(w.used, c.minIo) - w.used;
            var b := Padded(h.live[w.lnum], PadOf(c.crc, n, a.sqnum + 1));
            && SyncLeb(c, a.cur, false, a.sqnum) == b && SyncEnd(c, a.cur, false) == Align(w.used, c.minIo)
            && AfterSync(c, a, false) ==
               a.(synced := |a.objs|, sqnum := a.sqnum + PadTakes(n), cur := CurOf(Synced(h, w.lnum, b, false), w'))
  {
    hide BufOk, Used, SyncOffs, SumEntries, Avail, PadOf, Padded, Align, SumSizeWithExtra, SumSize, PadTakes;
    CurIs(c, h, w, es);
  }

  /** Closing the erase-block, in the history and on values. */
  lemma SyncedClose(c: Config, a: State, h: Hist, w: WBuf, es: seq<LS.SumEntry>)
    requires c.minIo > 0 && BufOk(c.lebSize, c.minIo, h, w, es) && w.avail > 0 && a.cur == CurOf(h, w)
    ensures w.lnum in h.live && CurOf(h, w).Open?
    ensures var n := w.avail - SumSize(|es|);
            var b := Finished(h.live[w.lnum], PadOf(c.crc, n, a.sqnum + 1),
                              SumOf(c.crc, es, w.used + n, a.sqnum + PadTakes(n) + 1));
            && SyncLeb(c, a.cur, true, a.sqnum) == b && SyncEnd(c, a.cur, true) == c.lebSize
            && AfterSync(c, a, true) == a.(synced := |a.objs|, sqnum := a.sqnum + PadTakes(n) + 1, cur := Closed)
  {
    hide BufOk, Used, SyncOffs, SumEntries, PadOf, SumOf, Finished, Align, SumSizeWithExtra, SumSize, PadTakes;
    CurIs(c, h, w, es);
  }

  lemma ForcedSame(c: Config, k: Current, force: bool, sq: nat)
    requires c.minIo > 0 && k.Open? && Closes(c, k, force)
    ensures SyncLeb(c, k, force, sq) == SyncLeb(c, k, true, sq) && SyncTakes(c, k, force) == SyncTakes(c, k, true)
    ensures SyncEnd(c, k, force) == SyncEnd(c, k, true)
  {
    hide Align, SumSizeWithExtra, SumSize, PadOf, SumOf, Finished;
  }

  // ---- writing --------------------------------------------------------------------------------------------

  /** There is an erase-block to be had. */
  predicate HasBlock(c: Config, s: Space, del: bool) {
    CanAlloc(s.used, s.nbFree, c.gc, c.del, del)
  }

  /** The first unused erase-block is the current one. */
  ghost function NewBlock(a: State): State
    requires FirstUnused(a.space.used, LOG_FST_LNUM) < |a.space.used|
  {
    a.(cur := Open(FirstUnused(a.space.used, LOG_FST_LNUM), EMPTY_LEB, EMPTY_LEB), space := Taken(a.space))
  }

  ghost function AddObjs(a: State, ps: seq<seq<byte>>): State
    requires a.cur.Open?
  {
    a.(objs := a.objs + ps, cur := a.cur.(leb := AddTrans(a.cur.leb, ps)))
  }

  /** The transaction and the reserve for its summary fit the current erase-block. */
  ghost predicate HasRoom(c: Config, k: Current, size: nat, count: nat)
    requires k.Open?
  {
    Avail(c, k) >= size + SumSizeWithExtra(|SumEntries(k)|, count)
  }

  /** Room for a transaction of `count` objects and `size` bytes: if necessary the erase-block is closed
      and a new one taken. */
  ghost function AfterRoom(c: Config, a: State, size: nat, count: nat, del: bool): (State, bool)
    requires c.minIo > 0 && a.cur.Open?
  {
    if HasRoom(c, a.cur, size, count) then (a, true)
    else
      var b := AfterSync(c, a, true);
      if HasBlock(c, b.space, del) then (NewBlock(b), true) else (b, false)
  }

  ghost function AfterWriteOpen(c: Config, a: State, os: seq<seq<byte>>, del: bool): (State, bool)
    requires c.minIo > 0 && a.cur.Open? && CanPack(os, a.sqnum)
  {
    var (b, ok) := AfterRoom(c, a.(sqnum := a.sqnum + |os|), |Concat(os)|, |os|, del);
    if ok then (AddObjs(b, PackAll(c.crc, os, a.sqnum)), true) else (b, false)
  }

  /** The state after writing the transaction `os`, and whether it was written. */
  ghost function AfterWrite(c: Config, a: State, os: seq<seq<byte>>, del: bool): (State, bool)
    requires c.minIo > 0 && CanPack(os, a.sqnum)
  {
    if a.cur.Open? then AfterWriteOpen(c, a, os, del)
    else if HasBlock(c, a.space, del) then AfterWriteOpen(c, NewBlock(a), os, del)
    else (a, false)
  }

  ghost predicate WrittenOpen(c: Config, a: State, os: seq<seq<byte>>, del: bool, z: State, ok: bool) {
    c.minIo > 0 && a.cur.Open? && CanPack(os, a.sqnum) && (z, ok) == AfterWriteOpen(c, a, os, del)
  }

  ghost predicate Written(c: Config, a: State, os: seq<seq<byte>>, del: bool, z: State, ok: bool) {
    c.minIo > 0 && CanPack(os, a.sqnum) && (z, ok) == AfterWrite(c, a, os, del)
  }

  /** Opening the first unused erase-block, in the history and on values. */
  lemma NewBlockOf(size: nat, minIo: nat, h: Hist, w: WBuf, es: seq<LS.SumEntry>, lebCnt: nat, used: seq<bool>,
                   nbFree: int)
    requires IoOk(size, minIo) && BufOk(size, minIo, h, w, es) && w.avail == 0 && FreeOk(lebCnt, used, nbFree, h.live)
    ensures var l := FirstUnused(used, LOG_FST_LNUM);
            l < |used| ==>
              && CurOf(Opened(h, l), WBuf(l, w.buf, 0, size, 0)) == Open(l, EMPTY_LEB, EMPTY_LEB)
              && CurOf(h, w) == Closed
  {
    hide OpenOk, Layout, SumSize;
    FirstUnusedIs(used, LOG_FST_LNUM);
  }

  /** Whether a transaction finds space, and the space afterwards, told from sizes alone. */
  lemma WriteSpaceOf(c: Config, a: State, os: seq<seq<byte>>, del: bool)
    requires c.minIo > 0 && CanPack(os, a.sqnum)
    ensures var (z, ok) := AfterWrite(c, a, os, del);
            var fits := a.cur.Open? && HasRoom(c, a.cur, |Concat(os)|, |os|);
            var fitsEmpty := c.lebSize >= |Concat(os)| + SumSizeWithExtra(0, |os|);
            (ok, z.space) == WriteSpace(a.space, a.cur.Open?, fits, fitsEmpty, c.gc, c.del, del)
  {
    hide PackAll, SyncLeb, SumSizeWithExtra, CanAlloc, Taken, AddTrans, Concat;
    NothingWritten();
  }

  lemma NothingWritten()
    ensures forall k: nat :: SumEntries(Open(k, EMPTY_LEB, EMPTY_LEB)) == []
    ensures Layout(EMPTY_LEB.items) == []
  {
    forall k: nat ensures SumEntries(Open(k, EMPTY_LEB, EMPTY_LEB)) == [] {
      NoRecs(k);
    }
  }

  // ---- unmounting and mounting ------------------------------------------------------------------------------

  /** How many sequence numbers the super object and its padding take. */
  function SuperTakes(minIo: nat): nat
    requires minIo > 0
  {
    1 + PadTakes(Align(SUPER_SZ, minIo) - SUPER_SZ)
  }

  ghost function AfterUnmount(c: Config, a: State): State
    requires c.minIo > 0
  {
    if a.mounted + 1 < a.sqnum then
      var b := AfterSync(c, a, true);
      b.(super := b.sqnum + 1, sqnum := b.sqnum + SuperTakes(c.minIo))
    else a
  }

  function Released(s: Space, l: nat): Space {
    if l < |s.used| then Space(s.used[l := false], s.nbFree + 1) else s
  }

  /** The space that a mount finds: an erase-block of which nothing is on flash is free again. */
  ghost function SpaceOnFlash(a: State): Space {
    if a.cur.Open? && SyncOffs(a.cur) == 0 then Released(a.space, a.cur.lnum) else a.space
  }

  /** Why a run cannot go on: numbers on flash above the one to restart from, an erase-block that cannot
      be read, or a cut object that its checksum does not tell. */
  datatype Ending = Stale | Broken | Untold

  datatype Answer = Stored(ok: bool) | Value(r: ReadResult) | Done

  datatype Outcome = Goes(z: State, ans: Answer) | Ends(why: Ending)

  /** The store right after a mount. */
  ghost function MountState(objs: seq<seq<byte>>, super: nat, space: Space): State {
    State(objs, |objs|, super, super, RestartNumber(super), Closed, space)
  }

  /** Mounting flash that holds `objs`. */
  ghost function AfterMount(objs: seq<seq<byte>>, super: nat, space: Space): Outcome {
    if NumbersUpto(RestartNumber(super), objs) then Goes(MountState(objs, super, space), Done) else Ends(Stale)
  }

  /** A crash and the mount that follows. */
  ghost function AfterCrash(a: State): Outcome {
    AfterMount(if a.synced <= |a.objs| then a.objs[..a.synced] else a.objs, a.super, SpaceOnFlash(a))
  }

  // ---- losing power -----------------------------------------------------------------------------------------

  /** How many objects are on flash when of the current erase-block `b` the first `p` bytes are. */
  ghost function CutCountAt(a: State, b: Leb, p: nat): int
    requires a.cur.Open?
  {
    |a.objs| - |Recs(a.cur.lnum, a.cur.leb)| + |Recs(a.cur.lnum, CutLeb(b, p))|
  }

  /** Losing power while `b` is written to the current erase-block, when its first `p` bytes are there,
      and the mount that follows. */
  ghost function AfterCutAt(c: Config, a: State, b: Leb, p: nat): Outcome
    requires a.cur.Open?
  {
    if Straddles(b, p) then Ends(if CutsSeen(c.crc, b, p) then Broken else Untold)
    else
      var n := CutCountAt(a, b, p);
      AfterMount(if 0 <= n <= |a.objs| then a.objs[..n] else a.objs, a.super, a.space)
  }

  /** Where a sync is cut after `pages` pages. */
  ghost function CutAt(c: Config, k: Current, pages: nat): nat
    requires k.Open?
  {
    SyncOffs(k) + pages * c.minIo
  }

  /** Losing power during a sync, when `pages` pages of it are on flash, and the mount that follows. */
  ghost function AfterPowerCut(c: Config, a: State, force: bool, pages: nat): Outcome
    requires c.minIo > 0
  {
    if !Writes(a.cur, force) || pages == 0 then AfterCrash(a)
    else
      var p := CutAt(c, a.cur, pages);
      if p >= SyncEnd(c, a.cur, force) then AfterCrash(AfterSync(c, a, force))
      else AfterCutAt(c, a, SyncLeb(c, a.cur, force, a.sqnum), p)
  }

  // ---- operations ---------------------------------------------------------------------------------------------

  /** `Unmount`, `Crash` and `PowerCut` include the mount that follows. */
  datatype Op = Write(os: seq<seq<byte>>, del: bool) | SyncAll | Read(id: ObjId, len: nat) | Unmount | Crash
              | PowerCut(force: bool, pages: nat)

  ghost predicate OpOk(c: Config, op: Op) {
    op.Write? ==>
      T.Proper(op.os) && (forall o :: o in op.os ==> Writable(o)) && |Concat(op.os)| + SumSize(|op.os|) <= c.lebSize
  }

  /** How many sequence numbers an operation may take. */
  function Takes(op: Op): nat {
    if op.Write? then |op.os| + 2 else 5
  }

  /** What an operation does. */
  ghost function Effect(c: Config, op: Op, a: State): Outcome
    requires c.minIo > 0 && OpOk(c, op) && a.sqnum + Takes(op) < TWO64
  {
    match op
    case Write(os, del) => (var (z, ok) := AfterWrite(c, a, os, del); Goes(z, Stored(ok)))
    case SyncAll => Goes(AfterSync(c, a, false), Done)
    case Read(id, len) => Goes(a, Value(Lookup(a.objs, id, len)))
    case Unmount => AfterCrash(AfterUnmount(c, a))
    case Crash => AfterCrash(a)
    case PowerCut(force, pages) => AfterPowerCut(c, a, force, pages)
  }
}
