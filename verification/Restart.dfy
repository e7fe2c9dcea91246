/** What a reader of the log expects, and from which sequence number a mounted system may go on. */
module Restart {
  import opened ObjectId
  import opened LogIndex

  predicate Replaces(r: Rec, id: ObjId) {
    if r.Obj? then r.id == id else Covers(r.id, id)
  }

  /** Entry `i` of the log is the last object `id`, and no deletion of it follows. */
  ghost predicate NewestAt(log: seq<Rec>, i: int, id: ObjId) {
    && 0 <= i < |log| && log[i].Obj? && log[i].id == id
    && forall j :: i < j < |log| ==> !Replaces(log[j], id)
  }

  lemma NewestIsLive(log: seq<Rec>, i: int, id: ObjId)
    requires InOrder(log) && 0 <= i < |log| && log[i].Obj? && log[i].id == id
    ensures NewestAt(log, i, id) <==> Live(Members(log), log[i])
  {
    hide Covers;
    var s := Members(log);
    if NewestAt(log, i, id) {
      forall q | q in s && Replaces(q, id) ensures q.addr.sqnum <= log[i].addr.sqnum {
        var j :| 0 <= j < |log| && log[j] == q;
        assert Replaces(log[j], id);
        assert j != i ==> Precedes(log[j], log[i]);
      }
      assert forall q :: q in s && q.Obj? && q.id == id ==> Replaces(q, id);
      assert forall q :: q in s && q.Del? && Covers(q.id, id) ==> Replaces(q, id);
    }
    if Live(s, log[i]) {
      forall j | i < j < |log| ensures !Replaces(log[j], id) {
        assert log[j] in s && Precedes(log[i], log[j]);
      }
    }
  }

  /** The index `m` answers for every id with the last object that is not deleted since. */
  ghost predicate Answers(m: Idx, log: seq<Rec>) {
    && (forall i, id :: NewestAt(log, i, id) ==> id in m && m[id] == log[i].addr)
    && (forall id :: id in m ==> exists i :: NewestAt(log, i, id))
  }

  lemma IndexAnswers(m: Idx, log: seq<Rec>)
    requires InOrder(log) && IsIndex(m, Members(log))
    ensures Answers(m, log)
  {
    hide Live, InOrder, Replaces;
    var s := Members(log);
    forall i, id | NewestAt(log, i, id) ensures id in m && m[id] == log[i].addr {
      NewestFields(log, i, id);
      NewestIsLive(log, i, id);
      assert Live(s, log[i]);
    }
    forall id | id in m ensures exists i :: NewestAt(log, i, id) {
      assert Live(s, Obj(id, m[id]));
      LiveObj(s, Obj(id, m[id]));
      var i :| 0 <= i < |log| && log[i] == Obj(id, m[id]);
      NewestIsLive(log, i, id);
    }
  }

  lemma NewestFields(log: seq<Rec>, i: int, id: ObjId)
    requires NewestAt(log, i, id)
    ensures 0 <= i < |log| && log[i] == Obj(id, log[i].addr)
  {
  }

  /** The index of a log in order answers for it. */
  lemma ReplayAnswers(log: seq<Rec>)
    requires InOrder(log)
    ensures Answers(Replay(map[], log), log)
  {
    hide InOrder, IsIndex, Answers, Replay;
    InOrderDistinct(log);
    OrderedNoneLate(log);
    ReplayIsIndex(log);
    IndexAnswers(Replay(map[], log), log);
  }

  lemma OrderedNoneLate(log: seq<Rec>)
    requires InOrder(log)
    ensures NoneLate(log)
  {
    hide Covers;
    forall i, j | 0 <= i < j < |log| && log[i].Del? && log[j].Obj? && Covers(log[i].id, log[j].id)
      ensures log[i].addr.sqnum <= log[j].addr.sqnum
    {
      assert Precedes(log[i], log[j]);
    }
  }

  // ---- going on from a number ---------------------------------------------------------------------------

  /** Every object on flash has a number up to `n`, and every deletion one up to `n + 1`. */
  ghost predicate RestartOk(n: nat, log: seq<Rec>) {
    forall r :: r in log ==> r.addr.sqnum <= if r.Obj? then n else n + 1
  }

  /** New records with numbers above `n`. */
  ghost predicate Follows(n: nat, log: seq<Rec>, rs: seq<Rec>) {
    Rising(rs) && forall r :: r in rs ==> r.addr.sqnum > n && r !in log
  }

  lemma RestartKeeps(n: nat, log: seq<Rec>, rs: seq<Rec>)
    requires InOrder(log) && RestartOk(n, log) && Follows(n, log, rs)
    ensures InOrder(log + rs)
  {
    var all := log + rs;
    forall i, j | 0 <= i < j < |all| ensures Precedes(all[i], all[j]) {
      if j < |log| {
        assert Precedes(log[i], log[j]);
      } else {
        assert rs[j - |log|] in rs;
        if i < |log| { assert log[i] in log; }
      }
    }
  }

  /** Reads during the run, and after any later mount, find the last object that is not deleted since. */
  ghost predicate GoesWell(log: seq<Rec>, rs: seq<Rec>) {
    && Answers(Replay(map[], log + rs), log + rs)
    && forall os, ds :: Splits(log + rs, os, ds) ==> Answers(Replay(map[], os + ds), log + rs)
  }

  /** A mount of the records `log` processes the objects `os` and then the deletions `ds`. */
  ghost predicate Splits(log: seq<Rec>, os: seq<Rec>, ds: seq<Rec>) {
    Objects(os) && Deletions(ds) && Members(os) + Members(ds) == Members(log)
  }

  lemma RestartSuffices(n: nat, log: seq<Rec>, rs: seq<Rec>)
    requires InOrder(log) && RestartOk(n, log) && Follows(n, log, rs)
    ensures GoesWell(log, rs)
  {
    hide InOrder, Answers, Replay, RestartOk, Follows;
    RestartKeeps(n, log, rs);
    ReplayAnswers(log + rs);
    forall os, ds | Splits(log + rs, os, ds) ensures Answers(Replay(map[], os + ds), log + rs) {
      MountAgrees(log + rs, os, ds);
    }
  }

  // ---- and no other number will do ------------------------------------------------------------------------

  function ObjectsOf(log: seq<Rec>): seq<Rec> {
    if log == [] then [] else ObjectsOf(log[..|log| - 1]) + if log[|log| - 1].Obj? then [log[|log| - 1]] else []
  }

  function DeletionsOf(log: seq<Rec>): seq<Rec> {
    if log == [] then [] else DeletionsOf(log[..|log| - 1]) + if log[|log| - 1].Del? then [log[|log| - 1]] else []
  }

  lemma {:induction false} SplitsOf(log: seq<Rec>)
    ensures Splits(log, ObjectsOf(log), DeletionsOf(log))
  {
    if log != [] {
      var n := |log| - 1;
      SplitsOf(log[..n]);
      assert log == log[..n] + [log[n]];
      MembersAppend(log[..n], [log[n]]);
    }
  }

  /** An address that no record of the log has. */
  lemma {:induction false} UnusedLnum(log: seq<Rec>) returns (l: nat)
    ensures forall r :: r in log ==> r.addr.lnum < l
  {
    if log == [] {
      l := 0;
    } else {
      var n := |log| - 1;
      var k := UnusedLnum(log[..n]);
      l := if k > log[n].addr.lnum then k else log[n].addr.lnum + 1;
    }
  }

  /** The last record has the highest number. */
  lemma LastIsTop(log: seq<Rec>, r: Rec)
    requires InOrder(log) && r in log
    ensures var q := log[|log| - 1]; r == q || Precedes(r, q)
  {
    var i :| 0 <= i < |log| && log[i] == r;
  }

  /** A new object of the id that the last record is about, with number `n + 1`. */
  lemma StaleObject(n: nat, log: seq<Rec>) returns (r: Rec)
    requires log != []
    ensures r.Obj? && r.id == log[|log| - 1].id && r.addr.sqnum == n + 1 && Follows(n, log, [r])
    ensures NewestAt(log + [r], |log|, r.id) && forall q :: q in log ==> q.addr != r.addr
  {
    var l := UnusedLnum(log);
    r := Obj(log[|log| - 1].id, Addr(l, 0, 0, n + 1));
  }

  lemma LastObjectIndexed(log: seq<Rec>)
    requires InOrder(log) && log != [] && log[|log| - 1].Obj?
    ensures var q := log[|log| - 1]; var m := Replay(map[], log); q.id in m && m[q.id] == q.addr
  {
    hide InOrder, Replay;
    ReplayAnswers(log);
    assert NewestAt(log, |log| - 1, log[|log| - 1].id);
  }

  /** If the number is too low, a single new object makes things go wrong: it is not seen at once, or
      it is gone after the next mount. */
  lemma RestartNeeded(n: nat, log: seq<Rec>) returns (r: Rec)
    requires InOrder(log) && !RestartOk(n, log)
    ensures Follows(n, log, [r]) && !GoesWell(log, [r])
  {
    hide Follows, Answers;
    var bad :| bad in log && bad.addr.sqnum > if bad.Obj? then n else n + 1;
    var q := log[|log| - 1];
    LastIsTop(log, bad);
    r := StaleObject(n, log);
    if q.Obj? {
      NotSeen(log, r);
    } else {
      NotKept(log, r);
    }
  }

  lemma NotSeen(log: seq<Rec>, r: Rec)
    requires InOrder(log) && log != [] && log[|log| - 1].Obj? && r.Obj? && r.id == log[|log| - 1].id
    requires r.addr.sqnum <= log[|log| - 1].addr.sqnum && r.addr != log[|log| - 1].addr
    requires NewestAt(log + [r], |log|, r.id)
    ensures !Answers(Replay(map[], log + [r]), log + [r])
  {
    hide InOrder, Replay, NewestAt;
    LastObjectIndexed(log);
    ReplaySnoc(map[], log, r);
  }

  lemma NotKept(log: seq<Rec>, r: Rec)
    requires log != [] && log[|log| - 1].Del? && r.Obj? && r.id == log[|log| - 1].id
    requires r.addr.sqnum < log[|log| - 1].addr.sqnum && NewestAt(log + [r], |log|, r.id)
    ensures !GoesWell(log, [r])
  {
    hide Replay, NewestAt, Splits;
    var n := |log| - 1;
    var q, all := log[n], log + [r];
    var os, ds := ObjectsOf(all), DeletionsOf(all);
    SplitsOf(all);
    assert all[..|all| - 1] == log;
    var init := os + DeletionsOf(log[..n]);
    assert ds == DeletionsOf(log) && DeletionsOf(log) == DeletionsOf(log[..n]) + [q];
    assert os + ds == init + [q];
    ReplaySnoc(map[], init, q);
    assert Covers(q.id, q.id);
    var m := Replay(map[], os + ds);
    assert r.id in m ==> m[r.id] != r.addr;
    assert !Answers(m, all);
  }

  /** A mounted system may go on from number `n`, whatever it writes, if and only if no object on flash
      has a higher number and no deletion one above `n + 1`. */
  lemma RestartExact(n: nat, log: seq<Rec>)
    requires InOrder(log)
    ensures RestartOk(n, log) <==> forall rs :: Follows(n, log, rs) ==> GoesWell(log, rs)
  {
    hide InOrder, RestartOk, Follows, GoesWell;
    if RestartOk(n, log) {
      forall rs | Follows(n, log, rs) ensures GoesWell(log, rs) {
        RestartSuffices(n, log, rs);
      }
    } else {
      var r := RestartNeeded(n, log);
    }
  }
}
