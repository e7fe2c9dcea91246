/** Reading objects back. */
module StoreRead {
  import opened ObjectId
  import opened LogIndex
  import LS = LogSummary
  import opened ObjFormat
  import opened LebModel
  import opened StoreModel
  import opened StoreSteps
  import opened StoreWrite
  import opened StoreMount
  import opened Restart
  import opened StoreAlloc
  import opened StoreCommit

  datatype ReadResult = NotFound | TooSmall | Got(o: seq<byte>)

  /** What a reader expects: of the objects written one after the other, the last one of the id, unless
      a deletion of it follows. */
  function Lookup(objs: seq<seq<byte>>, id: ObjId, len: nat): ReadResult {
    if objs == [] then NotFound
    else
      var o := objs[|objs| - 1];
      if HasId(o) && TypeOf(o) == DEL_TYPE && Covers(IdOf(o), id) then NotFound
      else if HasId(o) && TypeOf(o) != DEL_TYPE && IdOf(o) == id then (if len < |o| then TooSmall else Got(o))
      else Lookup(objs[..|objs| - 1], id, len)
  }

  /** The objects are those of the records. */
  ghost predicate Matches(log: seq<Rec>, objs: seq<seq<byte>>) {
    |log| == |objs| && forall k :: 0 <= k < |log| ==> RecordOf(log[k], objs[k])
  }

  ghost predicate RecordOf(r: Rec, o: seq<byte>) {
    HasId(o) && r == RecAt(r.addr.lnum, (r.addr.offs, o))
  }

  lemma DataMatches(live: Lebs, log: seq<Rec>, objs: seq<seq<byte>>)
    requires DataOk(live, log, objs)
    ensures Matches(log, objs)
  {
    hide Layout, Within, HasId, RecAt;
    forall k | 0 <= k < |log| ensures RecordOf(log[k], objs[k]) {
      assert StoredAt(live, log[k], objs[k]);
    }
  }

  lemma RecordReplaces(r: Rec, o: seq<byte>, id: ObjId)
    requires RecordOf(r, o)
    ensures HasId(o) && (r.Del? <==> TypeOf(o) == DEL_TYPE) && r.id == IdOf(o)
    ensures Replaces(r, id) <==> if TypeOf(o) == DEL_TYPE then Covers(IdOf(o), id) else IdOf(o) == id
  {
    hide Covers;
  }

  /** Looking through the objects from the end finds the newest record. */
  lemma {:induction false} LookupNewest(log: seq<Rec>, objs: seq<seq<byte>>, id: ObjId, len: nat)
    requires Matches(log, objs)
    ensures (forall i :: !NewestAt(log, i, id)) ==> Lookup(objs, id, len) == NotFound
    ensures forall i :: NewestAt(log, i, id) ==> Lookup(objs, id, len) == if len < |objs[i]| then TooSmall
            else Got(objs[i])
    decreases |objs|
  {
    hide HasId, Covers, RecordOf, IdOf;
    if objs != [] {
      var n := |objs| - 1;
      var r, o := log[n], objs[n];
      assert RecordOf(log[n], objs[n]);
      RecordReplaces(r, o, id);
      LookupNewest(log[..n], objs[..n], id, len);
      if Replaces(r, id) {
        NewestLast(log, id);
      } else {
        NewestBefore(log, id);
        if forall i :: !NewestAt(log, i, id) {
          forall i ensures !NewestAt(log[..n], i, id) {
            assert !NewestAt(log, i, id);
          }
        }
      }
    }
  }

  lemma NewestLast(log: seq<Rec>, id: ObjId)
    requires log != [] && Replaces(log[|log| - 1], id)
    ensures forall i :: NewestAt(log, i, id) <==> i == |log| - 1 && log[i].Obj?
  {
    hide Covers;
  }

  lemma NewestBefore(log: seq<Rec>, id: ObjId)
    requires log != [] && !Replaces(log[|log| - 1], id)
    ensures forall i :: NewestAt(log, i, id) <==> NewestAt(log[..|log| - 1], i, id)
  {
    hide Covers;
    var n := |log| - 1;
    forall i ensures NewestAt(log, i, id) <==> NewestAt(log[..n], i, id) {
      if NewestAt(log[..n], i, id) {
        forall j | i < j < |log| ensures !Replaces(log[j], id) {
          if j < n { assert log[..n][j] == log[j]; }
        }
      }
      if NewestAt(log, i, id) {
        assert i != n;
        forall j | i < j < n ensures !Replaces(log[..n][j], id) {
          assert log[..n][j] == log[j];
        }
      }
    }
  }

  /** Whatever the index holds is the address of some object in the log. */
  lemma {:induction false} ReplaySource(log: seq<Rec>, id: ObjId) returns (i: nat)
    requires id in Replay(map[], log)
    ensures i < |log| && log[i] == Obj(id, Replay(map[], log)[id])
  {
    var n := |log| - 1;
    var m := Replay(map[], log[..n]);
    if log[n].Obj? && log[n].id == id && !(id in m && m[id].sqnum >= log[n].addr.sqnum) {
      i := n;
    } else {
      i := ReplaySource(log[..n], id);
    }
  }

  /** In an ordered log the index and a reader agree. */
  lemma OrderedLookup(log: seq<Rec>, objs: seq<seq<byte>>, id: ObjId, len: nat, i: int)
    requires InOrder(log) && Matches(log, objs)
    requires id in Replay(map[], log) ==> 0 <= i < |log| && log[i] == Obj(id, Replay(map[], log)[id])
    ensures Lookup(objs, id, len) ==
            if id !in Replay(map[], log) then NotFound else if len < |objs[i]| then TooSmall else Got(objs[i])
  {
    hide InOrder, Replay, Lookup, RecordOf, Replaces;
    ReplayAnswers(log);
    LookupNewest(log, objs, id, len);
    var m := Replay(map[], log);
    if id in m {
      var k :| NewestAt(log, k, id);
      NewestFields(log, k, id);
      OrderedOnce(log, i, k);
    }
  }

  lemma OrderedOnce(log: seq<Rec>, i: int, k: int)
    requires InOrder(log) && 0 <= i < |log| && 0 <= k < |log| && log[i].Obj? && log[i] == log[k]
    ensures i == k
  {
  }

  /** The numbers in the objects written do not go beyond what a restart from `n` allows. */
  predicate NumbersUpto(n: nat, objs: seq<seq<byte>>) {
    forall o :: o in objs ==> |o| >= CH_SZ && SqnumOf(o) <= if TypeOf(o) == DEL_TYPE then n + 1 else n
  }

  lemma RestartNumbers(n: nat, log: seq<Rec>, objs: seq<seq<byte>>)
    requires Matches(log, objs)
    ensures RestartOk(n, log) <==> NumbersUpto(n, objs)
  {
    hide SqnumOf, IdOf, TypeOf;
    if RestartOk(n, log) {
      forall o | o in objs ensures |o| >= CH_SZ && SqnumOf(o) <= if TypeOf(o) == DEL_TYPE then n + 1 else n {
        var k :| 0 <= k < |objs| && objs[k] == o;
        assert RecordOf(log[k], objs[k]) && log[k] in log;
      }
    }
    if NumbersUpto(n, objs) {
      forall r | r in log ensures r.addr.sqnum <= if r.Obj? then n else n + 1 {
        var k :| 0 <= k < |log| && log[k] == r;
        assert RecordOf(log[k], objs[k]) && objs[k] in objs;
      }
    }
  }

  lemma WithinSlice(s: seq<byte>, n: nat, offs: nat, o: seq<byte>)
    requires n <= |s| && Within(s[..n], offs, o)
    ensures offs + |o| <= |s| && s[offs..offs + |o|] == o
  {
    assert s[offs..offs + |o|] == s[..n][offs..offs + |o|];
  }

  /** A stored object is in the buffer if its erase-block is the current one, else on flash. */
  lemma StoredFacts(crc: Crc, size: nat, minIo: nat, flash: Flash, h: Hist, w: WBuf, es: seq<LS.SumEntry>, r: Rec,
                    o: seq<byte>, lebCnt: nat, used: seq<bool>, nbFree: int)
    requires IoOk(size, minIo) && HistOk(crc, size, flash, h) && BufOk(size, minIo, h, w, es)
    requires FreeOk(lebCnt, used, nbFree, h.live)
    requires StoredAt(h.live, r, o)
    ensures r.addr.len == |o|
    ensures r.addr.lnum == w.lnum ==> r.addr.offs + |o| <= |w.buf| && w.buf[r.addr.offs..r.addr.offs + |o|] == o
    ensures r.addr.lnum != w.lnum ==>
              r.addr.lnum in flash && |flash[r.addr.lnum]| == size && size % minIo == 0 && r.addr.offs + |o| <= size &&
              flash[r.addr.lnum][r.addr.offs..r.addr.offs + |o|] == o
  {
    hide Layout, HistOk, HasId, LS.SumAll, Recs;
    if r.addr.lnum == w.lnum {
      WithinSlice(w.buf, w.used, r.addr.offs, o);
    } else {
      StoredOnFlash(crc, size, flash, h, r, o);
      FlashSize(crc, size, flash, h, r.addr.lnum);
    }
  }

  lemma BufGrown(crc: Crc, size: nat, minIo: nat, flash: Flash, h: Hist, w: WBuf, es: seq<LS.SumEntry>)
    requires minIo > 0 && HistOk(crc, size, flash, h) && BufOk(size, minIo, h, w, es)
    ensures Grown(h)
  {
    hide Layout, LiveOk, FlashOk, LogOk, LS.SumAll, Recs;
    forall l | l in h.disk ensures Layout(h.disk[l].items) <= Layout(h.live[l].items) {
      if l == w.lnum && w.avail > 0 {
        assert w.buf[..w.syncOffs] <= w.buf[..w.used];
      } else {
        assert OnDisk(h, l);
      }
    }
  }

  lemma CrashedKeys(crc: Crc, size: nat, flash: Flash, h: Hist)
    requires HistOk(crc, size, flash, h)
    ensures flash.Keys == h.disk.Keys && |flash| == |h.disk| && h.disk.Keys <= h.live.Keys
  {
    hide LiveOk, LogOk;
    FlashKeys(crc, size, flash, h);
    assert |flash| == |flash.Keys| && |h.disk| == |h.disk.Keys|;
  }
}
