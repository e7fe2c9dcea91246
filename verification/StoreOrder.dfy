/** A medium whose log is not in the order of its numbers, as a store leaves it that went on from too low a
    number: the order in which a mount processes it. */
module StoreOrder {
  import opened LogIndex
  import opened ObjFormat
  import opened StoreModel
  import opened StoreSteps
  import opened Restart
  import opened StoreWrite
  import opened StoreMount

  /** Those of `xs` that belong to the objects of the log, or to its deletions. */
  ghost function Pick<T>(log: seq<Rec>, xs: seq<T>, obj: bool): (ys: seq<T>)
    requires |xs| == |log|
  {
    if log == [] then []
    else
      var n := |log| - 1;
      Pick(log[..n], xs[..n], obj) + if log[n].Obj? == obj then [xs[n]] else []
  }

  /** The objects first and the deletions afterwards; a log in order stays as it is. */
  ghost function MountOrder<T>(log: seq<Rec>, xs: seq<T>): seq<T>
    requires |xs| == |log|
  {
    if InOrder(log) then xs else Pick(log, xs, true) + Pick(log, xs, false)
  }

  lemma {:induction false} PickIs(log: seq<Rec>)
    ensures Objects(Pick(log, log, true)) && Deletions(Pick(log, log, false))
    ensures Members(Pick(log, log, true)) + Members(Pick(log, log, false)) == Members(log)
    ensures |Pick(log, log, true)| + |Pick(log, log, false)| == |log|
  {
    if log != [] {
      var n := |log| - 1;
      PickIs(log[..n]);
      assert log == log[..n] + [log[n]];
      MembersAppend(log[..n], [log[n]]);
      MembersAppend(Pick(log[..n], log[..n], log[n].Obj?), [log[n]]);
      assert Pick(log, log, !log[n].Obj?) == Pick(log[..n], log[..n], !log[n].Obj?);
      hide Pick;
    }
  }

  /** The records in the order of a mount give the index of the whole log. */
  lemma MountOrderIs(log: seq<Rec>)
    requires Distinct(Members(log))
    ensures Members(MountOrder(log, log)) == Members(log) && |MountOrder(log, log)| == |log|
    ensures IsIndex(Replay(map[], MountOrder(log, log)), Members(log))
  {
    hide InOrder, Replay, Distinct, IsIndex, NoneLate;
    if InOrder(log) {
      OrderedNoneLate(log);
      ReplayIsIndex(log);
    } else {
      PickIs(log);
      TwoPasses(Pick(log, log, true), Pick(log, log, false));
      MembersAppend(Pick(log, log, true), Pick(log, log, false));
    }
  }

  lemma {:induction false} PickData(live: Lebs, log: seq<Rec>, objs: seq<seq<byte>>, obj: bool)
    requires DataOk(live, log, objs)
    ensures DataOk(live, Pick(log, log, obj), Pick(log, objs, obj))
    decreases |log|
  {
    hide StoredAt;
    if log != [] {
      PickData(live, log[..|log| - 1], objs[..|log| - 1], obj);
    }
  }

  /** The objects follow their records. */
  lemma MountOrderData(live: Lebs, log: seq<Rec>, objs: seq<seq<byte>>)
    requires DataOk(live, log, objs)
    ensures DataOk(live, MountOrder(log, log), MountOrder(log, objs))
  {
    hide StoredAt, InOrder;
    PickData(live, log, objs, true);
    PickData(live, log, objs, false);
  }

  /** The history that a mount starts from. */
  ghost function Remembered(h: Hist): Hist {
    var log := MountOrder(h.synced, h.synced);
    Hist(h.disk, h.disk, h.closed, log, log)
  }

  lemma RememberedMedium(crc: Crc, size: nat, lebCnt: nat, flash: Flash, h: Hist, objs: seq<seq<byte>>)
    requires MediumOk(crc, size, lebCnt, flash, h, objs) && KnownLog(h.synced) && Distinct(Members(h.synced))
    ensures |h.synced| <= |objs|
    ensures MediumOk(crc, size, lebCnt, flash, Remembered(h), MountOrder(h.synced, objs[..|h.synced|]))
    ensures |MountOrder(h.synced, objs[..|h.synced|])| == |Remembered(h).synced|
    ensures KnownLog(Remembered(h).synced) && Crashed(Remembered(h)) == Remembered(h)
    ensures InOrder(h.synced) ==> Remembered(h) == Crashed(h)
  {
    hide LiveOk, FlashOk, AllRecs, InOrder, Distinct, Known, StoredAt, MountOrder;
    CrashedMedium(crc, size, lebCnt, flash, h, objs);
    MountOrderIs(h.synced);
    MountOrderData(h.disk, h.synced, objs[..|h.synced|]);
    SameIfOrdered(h.synced);
    forall r | r in MountOrder(h.synced, h.synced) ensures Known(r) {
      assert r in Members(h.synced);
    }
  }

  lemma SameInOrder<T>(log: seq<Rec>, xs: seq<T>)
    requires InOrder(log) && |xs| == |log|
    ensures MountOrder(log, xs) == xs && MountOrder(log, log) == log
  {
  }

  lemma SameIfOrdered(log: seq<Rec>)
    ensures InOrder(log) ==> MountOrder(log, log) == log
  {
  }
}
