/** Transactions: objects are stamped with their position when written, and a scan of the log replays
    whole transactions only. */
module Transactions {

  const TRANS_ST: nat := 1
  const TRANS_IN: nat := 2
  const TRANS_END: nat := 4
  const TRANS_ATOM: nat := 5

  const MAX_OBJ_PER_TRANS: nat := 2048

  /** The stamp of object `i` of a transaction of `count` objects. */
  function GetObjTrans(count: nat, i: nat): (pos: nat)
    ensures pos < 8
  {
    if count == 1 then TRANS_ATOM
    else if i == 0 then TRANS_ST
    else if i == count - 1 then TRANS_END
    else TRANS_IN
  }

  datatype Pos = Invalid | More | Last

  /** Whether an object stamped `pos` can follow `n` objects of an unfinished transaction. */
  function CheckTransPos(n: nat, pos: nat): Pos {
    if pos == TRANS_ATOM then (if n != 0 then Invalid else Last)
    else if pos == TRANS_ST then (if n != 0 then Invalid else More)
    else if pos == TRANS_IN then (if n == 0 then Invalid else More)
    else if pos == TRANS_END then (if n == 0 then Invalid else Last)
    else Invalid
  }

  datatype Stamped<+T> = Stamped(trans: nat, item: T)

  /** What a scan has replayed, and the objects of the transaction it is in the middle of. */
  datatype Scan<+T> = Scan(done: seq<T>, pending: seq<T>)

  function Step<T>(s: Scan<T>, o: Stamped<T>): Scan<T> {
    match CheckTransPos(|s.pending|, o.trans)
    case Invalid => Scan(s.done, [])
    case Last => Scan(s.done + s.pending + [o.item], [])
    case More =>
      if |s.pending| + 1 == MAX_OBJ_PER_TRANS then Scan(s.done, []) else Scan(s.done, s.pending + [o.item])
  }

  /** One object of a scan: a transaction of its own and the beginning of one come with nothing pending, the middle and
      the end with something; whatever else comes, all that is pending is dropped, and so it is at 2048 objects. */
  lemma StepIs<T>(s: Scan<T>, o: Stamped<T>)
    ensures var n, all := |s.pending|, s.pending + [o.item];
            Step(s, o) ==
            if (o.trans == 5 && n == 0) || (o.trans == 4 && n > 0) then Scan(s.done + all, [])
            else if ((o.trans == 1 && n == 0) || (o.trans == 2 && n > 0)) && n + 1 != 2048 then Scan(s.done, all)
            else Scan(s.done, [])
  {
    assert s.done + s.pending + [o.item] == s.done + (s.pending + [o.item]);
  }

  function Run<T>(s: Scan<T>, os: seq<Stamped<T>>): Scan<T>
    decreases |os|
  {
    if os == [] then s else Run(Step(s, os[0]), os[1..])
  }

  /** The loop that scans a read buffer, with its array of pending addresses. */
  method ScanLog<T(0)>(os: seq<Stamped<T>>) returns (done: seq<T>)
    ensures done == Run(Scan([], []), os).done
  {
    var addrs := new T[MAX_OBJ_PER_TRANS];
    var n := 0;
    done := [];
    for k := 0 to |os|
      invariant n < MAX_OBJ_PER_TRANS
      invariant Run(Scan([], []), os) == Run(Scan(done, addrs[..n]), os[k..])
    {
      ghost var s := Scan(done, addrs[..n]);
      assert os[k..][1..] == os[k + 1..];
      assert Run(s, os[k..]) == Run(Step(s, os[k]), os[k + 1..]);
      var last := CheckTransPos(n, os[k].trans);
      if last.Invalid? {
        n := 0;
        assert addrs[..n] == [];
        continue;
      }
      addrs[n] := os[k].item;
      n := n + 1;
      assert addrs[..n] == s.pending + [os[k].item];
      if last.More? {
        if n == MAX_OBJ_PER_TRANS {
          n := 0;
          assert addrs[..n] == [];
        }
        continue;
      }
      var i := 0;
      ghost var before := done;
      while i < n
        invariant i <= n && done == before + addrs[..i]
      {
        done := done + [addrs[i]];
        i := i + 1;
      }
      assert done == s.done + s.pending + [os[k].item];
      n := 0;
      assert addrs[..n] == [];
    }
  }

  lemma {:induction false} RunAppend<T>(s: Scan<T>, a: seq<Stamped<T>>, b: seq<Stamped<T>>)
    ensures Run(s, a + b) == Run(Run(s, a), b)
    decreases |a|
  {
    if a == [] {
      assert a + b == b;
    } else {
      assert (a + b)[1..] == a[1..] + b;
      RunAppend(Step(s, a[0]), a[1..], b);
    }
  }

  /** A transaction as it is written. */
  function Stamp<T>(t: seq<T>): (r: seq<Stamped<T>>)
    ensures |r| == |t|
  {
    seq(|t|, i requires 0 <= i < |t| => Stamped(GetObjTrans(|t|, i), t[i]))
  }

  function Written<T>(ts: seq<seq<T>>): seq<Stamped<T>> {
    if ts == [] then [] else Stamp(ts[0]) + Written(ts[1..])
  }

  function Flatten<T>(ts: seq<seq<T>>): seq<T> {
    if ts == [] then [] else ts[0] + Flatten(ts[1..])
  }

  predicate Proper<T>(t: seq<T>) {
    1 <= |t| <= MAX_OBJ_PER_TRANS
  }

  /** In the middle of a transaction nothing has been replayed, and all its objects are pending. */
  lemma {:induction false} Unfinished<T>(done: seq<T>, t: seq<T>, k: nat)
    requires k < |t| && k < MAX_OBJ_PER_TRANS
    ensures Run(Scan(done, []), Stamp(t)[..k]) == Scan(done, t[..k])
  {
    if k > 0 {
      var p := Stamp(t);
      assert p[..k] == p[..k - 1] + [p[k - 1]];
      Unfinished(done, t, k - 1);
      RunAppend(Scan(done, []), p[..k - 1], [p[k - 1]]);
      assert t[..k] == t[..k - 1] + [t[k - 1]];
    }
  }

  lemma Finished<T>(done: seq<T>, t: seq<T>)
    requires Proper(t)
    ensures Run(Scan(done, []), Stamp(t)) == Scan(done + t, [])
  {
    var p, k := Stamp(t), |t| - 1;
    assert p == p[..k] + [p[k]];
    Unfinished(done, t, k);
    RunAppend(Scan(done, []), p[..k], [p[k]]);
    assert done + t[..k] + [t[k]] == done + t;
  }

  lemma {:induction false} WholeTransactions<T>(done: seq<T>, ts: seq<seq<T>>)
    requires forall t :: t in ts ==> Proper(t)
    ensures Run(Scan(done, []), Written(ts)) == Scan(done + Flatten(ts), [])
    decreases |ts|
  {
    if ts != [] {
      RunAppend(Scan(done, []), Stamp(ts[0]), Written(ts[1..]));
      Finished(done, ts[0]);
      WholeTransactions(done + ts[0], ts[1..]);
      assert done + ts[0] + Flatten(ts[1..]) == done + Flatten(ts);
    }
  }

  /** How many transactions are complete within the first `n` objects. */
  function Complete<T>(ts: seq<seq<T>>, n: nat): (m: nat)
    ensures m <= |ts|
    decreases |ts|
  {
    if ts == [] || |ts[0]| > n then 0 else 1 + Complete(ts[1..], n - |ts[0]|)
  }

  /** The first `n` objects are the complete transactions and the beginning of the next one. */
  lemma {:induction false} CompleteIs<T>(ts: seq<seq<T>>, n: nat)
    requires n <= |Flatten(ts)|
    ensures var m := Complete(ts, n);
            && |Flatten(ts[..m])| <= n && Flatten(ts[..m]) <= Flatten(ts)
            && (m == |ts| ==> n == |Flatten(ts)|)
            && (m < |ts| ==> n < |Flatten(ts[..m])| + |ts[m]|
                             && Flatten(ts)[|Flatten(ts[..m])|..n] == ts[m][..n - |Flatten(ts[..m])|])
    decreases |ts|
  {
    var m := Complete(ts, n);
    if ts != [] && |ts[0]| <= n {
      CompleteIs(ts[1..], n - |ts[0]|);
      CompleteStep(ts[0], ts[1..], m - 1, n);
      assert ts[..m][1..] == ts[1..][..m - 1] && ts[..m][0] == ts[0];
    } else {
      assert ts[..m] == [];
    }
  }

  lemma CompleteStep<T>(t: seq<T>, ts: seq<seq<T>>, m: nat, n: nat)
    requires m <= |ts| && |t| <= n <= |t| + |Flatten(ts)| && |Flatten(ts[..m])| <= n - |t|
    requires Flatten(ts[..m]) <= Flatten(ts)
    ensures t + Flatten(ts[..m]) <= t + Flatten(ts)
    ensures (t + Flatten(ts))[|t + Flatten(ts[..m])|..n] == Flatten(ts)[|Flatten(ts[..m])|..n - |t|]
  {
    hide Flatten;
  }

  lemma {:induction false} WrittenSize<T>(ts: seq<seq<T>>)
    ensures |Written(ts)| == |Flatten(ts)|
  {
    if ts != [] { WrittenSize(ts[1..]); }
  }

  /** All or nothing: a log of whole transactions followed by an unfinished one replays exactly the
      objects of the whole ones. */
  lemma AllOrNothing<T>(ts: seq<seq<T>>, t: seq<T>, k: nat)
    requires (forall u :: u in ts ==> Proper(u)) && Proper(t) && k < |t|
    ensures Run(Scan([], []), Written(ts) + Stamp(t)[..k]).done == Flatten(ts)
  {
    RunAppend(Scan([], []), Written(ts), Stamp(t)[..k]);
    WholeTransactions([], ts);
    assert [] + Flatten(ts) == Flatten(ts);
    Unfinished(Flatten(ts), t, k);
  }

  lemma CompleteFirst<T>(ts: seq<seq<T>>, n: nat)
    ensures |Written<T>([])| == |Flatten<T>([])| == 0 && (ts == [] ==> Complete(ts, n) == 0)
    ensures Complete(ts, n) == 0 ==> ts[..Complete(ts, n)] == [] && (ts != [] ==> n < |ts[0]|)
    ensures Complete(ts, n) > 0 ==>
              ts != [] && |ts[0]| <= n && Complete(ts, n) == 1 + Complete(ts[1..], n - |ts[0]|)
  {
  }

  lemma Unfold<T>(ts: seq<seq<T>>)
    requires ts != []
    ensures Written(ts) == Stamp(ts[0]) + Written(ts[1..]) && Flatten(ts) == ts[0] + Flatten(ts[1..])
  {
  }

  lemma CutTail<T>(p: seq<T>, s: seq<T>, a: seq<T>, b: seq<T>, n: nat)
    requires |p| <= n <= |p| + |s| && s[..n - |p|] == a + b
    ensures (p + s)[..n] == (p + a) + b
  {
  }

  /** Cutting a log anywhere leaves whole transactions and the beginning of one more. */
  lemma {:induction false} CutLog<T>(ts: seq<seq<T>>, n: nat)
    requires n <= |Flatten(ts)|
    ensures |Written(ts)| == |Flatten(ts)|
    ensures var m := Complete(ts, n);
            var k := n - |Flatten(ts[..m])|;
            && 0 <= k && |Written(ts[..m])| == |Flatten(ts[..m])|
            && (if m < |ts| then k < |ts[m]| && Written(ts)[..n] == Written(ts[..m]) + Stamp(ts[m])[..k]
                else k == 0 && Written(ts)[..n] == Written(ts[..m]))
    decreases |ts|
  {
    hide Stamp, Written, Flatten, Complete;
    WrittenSize(ts);
    var m := Complete(ts, n);
    WrittenSize(ts[..m]);
    CompleteIs(ts, n);
    CompleteFirst(ts, n);
    if ts != [] {
      Unfold(ts);
    }
    if m > 0 {
      var p, rest := Stamp(ts[0]), ts[1..];
      CutLog(rest, n - |ts[0]|);
      assert ts[..m][1..] == rest[..m - 1] && ts[..m][0] == ts[0];
      assert m < |ts| ==> rest[m - 1] == ts[m];
      Unfold(ts[..m]);
      CutTail(p, Written(rest), Written(rest[..m - 1]), if m < |ts| then Stamp(ts[m])[..n - |Flatten(ts[..m])|]
              else [], n);
    }
  }

  /** Replaying a log that was cut off after any `n` objects gives exactly the transactions complete
      by then. */
  lemma CutReplay<T>(ts: seq<seq<T>>, n: nat)
    requires (forall u :: u in ts ==> Proper(u)) && n <= |Flatten(ts)|
    ensures |Written(ts)| == |Flatten(ts)|
    ensures Run(Scan([], []), Written(ts)[..n]).done == Flatten(ts[..Complete(ts, n)])
  {
    hide Written, Run, Flatten, Stamp;
    var m := Complete(ts, n);
    CutLog(ts, n);
    if m < |ts| {
      AllOrNothing(ts[..m], ts[m], n - |Flatten(ts[..m])|);
    } else {
      WholeTransactions([], ts[..m]);
      assert [] + Flatten(ts[..m]) == Flatten(ts[..m]);
    }
  }

  lemma {:induction false} WrittenSnoc<T>(ts: seq<seq<T>>, t: seq<T>)
    ensures Written(ts + [t]) == Written(ts) + Stamp(t)
    ensures Flatten(ts + [t]) == Flatten(ts) + t
    decreases |ts|
  {
    if ts == [] {
      assert ts + [t] == [t] && [t][1..] == [];
    } else {
      assert (ts + [t])[1..] == ts[1..] + [t];
      WrittenSnoc(ts[1..], t);
    }
  }

  /** The limit is exact: a transaction replays if and only if it has at most 2048 objects. */
  lemma TooLong<T>(t: seq<T>)
    requires t != []
    ensures Run(Scan([], []), Stamp(t)).done == t <==> |t| <= MAX_OBJ_PER_TRANS
    ensures |t| > MAX_OBJ_PER_TRANS ==> Run(Scan([], []), Stamp(t)) == Scan([], [])
  {
    if |t| <= MAX_OBJ_PER_TRANS {
      Finished([], t);
    } else {
      var p, k := Stamp(t), MAX_OBJ_PER_TRANS - 1;
      Unfinished([], t, k);
      assert p[..k + 1] == p[..k] + [p[k]];
      RunAppend(Scan([], []), p[..k], [p[k]]);
      assert Run(Scan([], []), p[..k + 1]) == Scan([], []);
      Stragglers(t, k + 1);
      assert p == p[..k + 1] + p[k + 1..];
      RunAppend(Scan([], []), p[..k + 1], p[k + 1..]);
    }
  }

  lemma {:induction false} Stragglers<T>(t: seq<T>, k: nat)
    requires 0 < k <= |t| && |t| > 1
    ensures Run(Scan([], []), Stamp(t)[k..]) == Scan([], [])
    decreases |t| - k
  {
    if k < |t| {
      assert Stamp(t)[k..][1..] == Stamp(t)[k + 1..];
      Stragglers(t, k + 1);
    }
  }
}
