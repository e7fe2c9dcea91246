/** What the log means: the index that a set of logged objects and deletions stands for, and the
    orders in which the records may be processed to get it. */
module LogIndex {
  import opened ObjectId

  /** An object, or a deletion marker, together with where it lies and its sequence number. */
  datatype Rec = Obj(id: ObjId, addr: Addr) | Del(id: ObjId, addr: Addr)

  type Idx = map<ObjId, Addr>

  /** The ids a deletion covers: the id itself for a directory entry array, otherwise all ids of the
      inode from the given one on. */
  predicate Covers(d: ObjId, id: ObjId) {
    if TypeField(d) == DENTARR_TYPE then id == d else Inum(id) == Inum(d) && id >= d
  }

  /** The effect of processing one record. */
  function Apply(m: Idx, r: Rec): Idx {
    match r
    case Obj(id, a) => if id in m && m[id].sqnum >= a.sqnum then m else m[id := a]
    case Del(d, a) => map i | i in m && !(Covers(d, i) && m[i].sqnum < a.sqnum) :: m[i]
  }

  function Replay(m: Idx, rs: seq<Rec>): Idx {
    if rs == [] then m else Apply(Replay(m, rs[..|rs| - 1]), rs[|rs| - 1])
  }

  // ---- the meaning of a set of records --------------------------------------------------------------

  /** Sequence numbers tell the objects of one id apart. */
  ghost predicate Distinct(s: set<Rec>) {
    forall p, q :: p in s && q in s && p.Obj? && q.Obj? && p.id == q.id && p.addr.sqnum == q.addr.sqnum ==> p == q
  }

  /** `r` is the newest object of its id, and no newer deletion covers it. */
  ghost predicate Live(s: set<Rec>, r: Rec) {
    && r in s && r.Obj?
    && (forall q :: q in s && q.Obj? && q.id == r.id ==> q.addr.sqnum <= r.addr.sqnum)
    && (forall q :: q in s && q.Del? && Covers(q.id, r.id) ==> q.addr.sqnum <= r.addr.sqnum)
  }

  /** `m` holds exactly the live objects of `s`. */
  ghost predicate IsIndex(m: Idx, s: set<Rec>) {
    && (forall r :: Live(s, r) ==> r.id in m && m[r.id] == r.addr)
    && (forall id :: id in m ==> Live(s, Obj(id, m[id])))
  }

  lemma IndexUnique(m: Idx, m': Idx, s: set<Rec>)
    requires IsIndex(m, s) && IsIndex(m', s)
    ensures m == m'
  {
    forall id | id in m ensures id in m' && m'[id] == m[id] {
      assert Live(s, Obj(id, m[id]));
    }
    forall id | id in m' ensures id in m {
      assert Live(s, Obj(id, m'[id]));
    }
  }

  ghost function Members(rs: seq<Rec>): set<Rec> {
    set r | r in rs
  }

  lemma MembersAppend(a: seq<Rec>, b: seq<Rec>)
    ensures Members(a + b) == Members(a) + Members(b)
  {
  }

  lemma ReplaySnoc(m: Idx, rs: seq<Rec>, r: Rec)
    ensures Replay(m, rs + [r]) == Apply(Replay(m, rs), r)
  {
    assert (rs + [r])[..|rs + [r]| - 1] == rs;
  }

  // ---- processing orders ------------------------------------------------------------------------------

  /** `r` leaves `q` alive: it is no newer object of the same id and no newer deletion of it. */
  ghost predicate Spares(r: Rec, q: Rec) {
    if r.Obj? then r.id == q.id ==> r.addr.sqnum <= q.addr.sqnum
    else Covers(r.id, q.id) ==> r.addr.sqnum <= q.addr.sqnum
  }

  lemma LiveBefore(s: set<Rec>, r: Rec, q: Rec)
    requires Live(s + {r}, q) && q != r
    ensures Live(s, q) && Spares(r, q)
  {
    hide Covers;
    assert q in s;
    assert r in s + {r};
  }

  lemma LiveAfter(s: set<Rec>, r: Rec, q: Rec)
    requires Live(s, q) && Spares(r, q)
    ensures Live(s + {r}, q)
  {
    hide Covers;
  }

  /** An object may be added as long as no newer deletion covering it has been processed. */
  lemma ApplyObj(m: Idx, s: set<Rec>, r: Rec)
    requires IsIndex(m, s) && Distinct(s + {r}) && r.Obj?
    requires forall q :: q in s && q.Del? && Covers(q.id, r.id) ==> q.addr.sqnum <= r.addr.sqnum
    ensures IsIndex(Apply(m, r), s + {r})
  {
    hide Live, IsIndex, Distinct, Covers;
    if r.id in m && m[r.id].sqnum >= r.addr.sqnum {
      OldObject(m, s, r);
    } else {
      NewestStays(m, s, r);
      NewObject(m, s, r);
    }
  }

  lemma OldObject(m: Idx, s: set<Rec>, r: Rec)
    requires IsIndex(m, s) && Distinct(s + {r}) && r.Obj?
    requires r.id in m && m[r.id].sqnum >= r.addr.sqnum
    ensures IsIndex(m, s + {r})
  {
    hide Live, Distinct;
    var n := Obj(r.id, m[r.id]);
    assert Live(s, n);
    LiveObj(s, n);
    forall q | Live(s + {r}, q) ensures q.id in m && m[q.id] == q.addr {
      if q == r {
        LiveTop(s + {r}, r, n);
      } else {
        LiveBefore(s, r, q);
      }
    }
    forall id | id in m ensures Live(s + {r}, Obj(id, m[id])) {
      assert Live(s, Obj(id, m[id]));
      LiveAfter(s, r, Obj(id, m[id]));
    }
  }

  /** Of the objects of one id only the newest is live. */
  lemma LiveTop(s: set<Rec>, r: Rec, n: Rec)
    requires Live(s, r) && n in s && n.Obj? && n.id == r.id && n.addr.sqnum >= r.addr.sqnum && Distinct(s)
    ensures n == r
  {
    hide Covers;
  }

  lemma NewObject(m: Idx, s: set<Rec>, r: Rec)
    requires IsIndex(m, s) && Distinct(s + {r}) && r.Obj?
    requires forall q :: q in s && q.Obj? && q.id == r.id ==> q.addr.sqnum <= r.addr.sqnum
    requires forall q :: q in s && q.Del? && Covers(q.id, r.id) ==> q.addr.sqnum <= r.addr.sqnum
    ensures IsIndex(m[r.id := r.addr], s + {r})
  {
    hide Live, Distinct, Covers;
    var m', s' := m[r.id := r.addr], s + {r};
    LiveNew(s, r);
    forall q | Live(s', q) ensures q.id in m' && m'[q.id] == q.addr {
      if q.id == r.id {
        LiveObj(s', q);
        LiveTop(s', q, r);
      } else {
        LiveBefore(s, r, q);
      }
    }
    forall id | id in m' ensures Live(s', Obj(id, m'[id])) {
      if id != r.id {
        assert Live(s, Obj(id, m[id]));
        LiveAfter(s, r, Obj(id, m[id]));
      } else {
        assert Obj(id, m'[id]) == r;
      }
    }
  }

  lemma LiveNew(s: set<Rec>, r: Rec)
    requires r.Obj? && forall q :: q in s && q.Obj? && q.id == r.id ==> q.addr.sqnum <= r.addr.sqnum
    requires forall q :: q in s && q.Del? && Covers(q.id, r.id) ==> q.addr.sqnum <= r.addr.sqnum
    ensures Live(s + {r}, r)
  {
    hide Covers;
  }

  lemma LiveObj(s: set<Rec>, q: Rec)
    requires Live(s, q)
    ensures q in s && q.Obj? && forall r :: r in s && r.Obj? && r.id == q.id ==> r.addr.sqnum <= q.addr.sqnum
  {
    hide Covers;
  }

  lemma NewestStays(m: Idx, s: set<Rec>, r: Rec)
    requires IsIndex(m, s) && Distinct(s + {r}) && r.Obj?
    requires r.id in m ==> m[r.id].sqnum < r.addr.sqnum
    requires forall q :: q in s && q.Del? && Covers(q.id, r.id) ==> q.addr.sqnum <= r.addr.sqnum
    ensures forall q :: q in s && q.Obj? && q.id == r.id ==> q.addr.sqnum <= r.addr.sqnum
  {
    hide Covers;
    var t := set q | q in s && q.Obj? && q.id == r.id;
    if t != {} {
      var n := Newest(t);
      if !Live(s, n) {
        var d :| d in s && d.Del? && Covers(d.id, n.id) && d.addr.sqnum > n.addr.sqnum;
      }
      forall q | q in s && q.Obj? && q.id == r.id ensures q.addr.sqnum <= r.addr.sqnum {
        assert q in t;
      }
    }
  }

  lemma Newest(t: set<Rec>) returns (n: Rec)
    requires t != {}
    ensures n in t && forall q :: q in t ==> q.addr.sqnum <= n.addr.sqnum
  {
    n :| n in t;
    if t - {n} != {} {
      var n' := Newest(t - {n});
      if n.addr.sqnum < n'.addr.sqnum { n := n'; }
    }
  }

  /** A deletion may be processed at any time. */
  lemma ApplyDel(m: Idx, s: set<Rec>, d: Rec)
    requires IsIndex(m, s) && d.Del?
    ensures IsIndex(Apply(m, d), s + {d})
  {
    hide Live, Covers;
    var m', s' := Apply(m, d), s + {d};
    forall q | Live(s', q) ensures q.id in m' && m'[q.id] == q.addr {
      LiveObj(s', q);
      LiveBefore(s, d, q);
    }
    forall id | id in m' ensures Live(s', Obj(id, m'[id])) {
      assert Live(s, Obj(id, m[id]));
      LiveAfter(s, d, Obj(id, m[id]));
    }
  }

  /** No object comes after a newer deletion that covers it. */
  ghost predicate NoneLate(rs: seq<Rec>) {
    forall i, j :: 0 <= i < j < |rs| && rs[i].Del? && rs[j].Obj? && Covers(rs[i].id, rs[j].id) ==>
      rs[i].addr.sqnum <= rs[j].addr.sqnum
  }

  /** Every such order gives the index that the records stand for. */
  lemma {:induction false} ReplayIsIndex(rs: seq<Rec>)
    requires NoneLate(rs) && Distinct(Members(rs))
    ensures IsIndex(Replay(map[], rs), Members(rs))
  {
    if rs != [] {
      var n := |rs| - 1;
      var init, r := rs[..n], rs[n];
      assert Members(rs) == Members(init) + {r};
      ReplayIsIndex(init);
      if r.Obj? {
        NoneLateLast(rs);
        ApplyObj(Replay(map[], init), Members(init), r);
      } else {
        ApplyDel(Replay(map[], init), Members(init), r);
      }
    }
  }

  lemma NoneLateLast(rs: seq<Rec>)
    requires NoneLate(rs) && rs != [] && rs[|rs| - 1].Obj?
    ensures var r := rs[|rs| - 1];
            forall q :: q in Members(rs[..|rs| - 1]) && q.Del? && Covers(q.id, r.id) ==> q.addr.sqnum <= r.addr.sqnum
  {
    var init, r := rs[..|rs| - 1], rs[|rs| - 1];
    forall q | q in Members(init) && q.Del? && Covers(q.id, r.id) ensures q.addr.sqnum <= r.addr.sqnum {
      var i :| 0 <= i < |init| && init[i] == q;
      assert rs[i] == q;
    }
  }

  /** `a` comes before `b`: its number is smaller, or the same if `a` is a deletion. */
  ghost predicate Precedes(a: Rec, b: Rec) {
    a.addr.sqnum < b.addr.sqnum || (a.addr.sqnum == b.addr.sqnum && a.Del? && a != b)
  }

  /** The running system processes records in the order of their sequence numbers. */
  ghost predicate InOrder(rs: seq<Rec>) {
    forall i, j :: 0 <= i < j < |rs| ==> Precedes(rs[i], rs[j])
  }

  /** The numbers that one run of the system hands out grow. */
  ghost predicate Rising(rs: seq<Rec>) {
    forall i, j :: 0 <= i < j < |rs| ==> rs[i].addr.sqnum < rs[j].addr.sqnum
  }

  ghost predicate Objects(rs: seq<Rec>) {
    forall r :: r in rs ==> r.Obj?
  }

  ghost predicate Deletions(rs: seq<Rec>) {
    forall r :: r in rs ==> r.Del?
  }

  /** Objects first and deletions afterwards is an order that gives the index. */
  lemma TwoPasses(os: seq<Rec>, ds: seq<Rec>)
    requires Objects(os) && Deletions(ds) && Distinct(Members(os) + Members(ds))
    ensures IsIndex(Replay(map[], os + ds), Members(os) + Members(ds))
  {
    assert Members(os + ds) == Members(os) + Members(ds);
    forall i | 0 <= i < |os| ensures (os + ds)[i].Obj? {
      assert os[i] in os;
    }
    forall j | |os| <= j < |os + ds| ensures (os + ds)[j].Del? {
      assert ds[j - |os|] in ds;
    }
    ReplayIsIndex(os + ds);
  }

  lemma InOrderDistinct(log: seq<Rec>)
    requires InOrder(log)
    ensures Distinct(Members(log))
  {
    forall p, q | p in Members(log) && q in Members(log) && p.Obj? && q.Obj? && p.id == q.id
      && p.addr.sqnum == q.addr.sqnum
      ensures p == q
    {
      var i :| 0 <= i < |log| && log[i] == p;
      var j :| 0 <= j < |log| && log[j] == q;
    }
  }

  /** Mounting, which processes the objects in any order and then the deletions in any order, gives
      exactly the index that the running system had. */
  lemma MountAgrees(log: seq<Rec>, os: seq<Rec>, ds: seq<Rec>)
    requires InOrder(log) && Objects(os) && Deletions(ds) && Members(os) + Members(ds) == Members(log)
    ensures Replay(map[], os + ds) == Replay(map[], log)
    ensures IsIndex(Replay(map[], log), Members(log))
  {
    InOrderDistinct(log);
    ReplayIsIndex(log);
    TwoPasses(os, ds);
    IndexUnique(Replay(map[], log), Replay(map[], os + ds), Members(log));
  }

  /** Processing deletions in the same pass would be wrong: an older object processed after the
      deletion that covers it comes back. */
  lemma OnePassResurrects(id: ObjId, older: Addr, gone: Addr)
    requires older.sqnum < gone.sqnum
    ensures id in Replay(map[], [Del(id, gone), Obj(id, older)])
    ensures id !in Replay(map[], [Obj(id, older), Del(id, gone)])
  {
    assert [Del(id, gone), Obj(id, older)][..1] == [Del(id, gone)] && [Del(id, gone)][..0] == [];
    assert [Obj(id, older), Del(id, gone)][..1] == [Obj(id, older)] && [Obj(id, older)][..0] == [];
    assert Replay(map[], [Obj(id, older)]) == map[id := older];
    assert Covers(id, id);
  }
}
