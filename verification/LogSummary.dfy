/** The summary of an erase-block: one entry per object or deletion, reusing entries of records that
    a newer one makes irrelevant. */
module LogSummary {
  import opened ObjectId
  import opened LogIndex

  const DEL_FLAG: nat := 0x8000_0000

  /** An entry; the top bit of the last word tells deletions from objects. */
  datatype SumEntry = SumEntry(id: ObjId, sqnum: nat, len: nat, flagAndOffs: nat, count: nat)

  function EntryOffs(e: SumEntry): nat {
    e.flagAndOffs % DEL_FLAG
  }

  predicate EntryIsDel(e: SumEntry) {
    e.flagAndOffs / DEL_FLAG % 2 == 1
  }

  function MakeEntry(r: Rec, count: nat): SumEntry {
    SumEntry(r.id, r.addr.sqnum, r.addr.len, r.addr.offs + if r.Del? then DEL_FLAG else 0, count)
  }

  /** The 16-bit count of the records an entry has stood for before. */
  function Bump(e: SumEntry): nat {
    (e.count + 1) % 0x1_0000
  }

  /** The record that an entry of the summary of erase-block `lnum` stands for. */
  function RecOf(lnum: nat, e: SumEntry): Rec {
    var a := Addr(lnum, EntryOffs(e), e.len, e.sqnum);
    if EntryIsDel(e) then Del(e.id, a) else Obj(e.id, a)
  }

  /** A record that lies in erase-block `lnum`. */
  predicate In(lnum: nat, r: Rec) {
    r.addr.lnum == lnum && r.addr.offs < DEL_FLAG
  }

  lemma EntryRoundTrip(lnum: nat, r: Rec)
    requires In(lnum, r)
    ensures forall count :: RecOf(lnum, MakeEntry(r, count)) == r
  {
  }

  // ---- choosing an entry ----------------------------------------------------------------------------

  datatype Verdict = Pass | Reuse | Drop

  /** What the new record `r` does on meeting entry `e`. */
  function Meet(e: SumEntry, r: Rec): Verdict {
    if r.Del? then
      if TypeField(r.id) == DENTARR_TYPE then
        if e.id == r.id then (if e.sqnum > r.addr.sqnum then Drop else Reuse) else Pass
      else if Inum(e.id) == Inum(r.id) && e.id > r.id && e.sqnum < r.addr.sqnum then Reuse
      else Pass
    else if EntryIsDel(e) && TypeField(r.id) != DENTARR_TYPE then Pass
    else if e.id == r.id then (if e.sqnum > r.addr.sqnum then Drop else Reuse)
    else Pass
  }

  /** The summary after recording `r`, the entries before `i` having been passed. */
  function Record(es: seq<SumEntry>, r: Rec, i: nat): seq<SumEntry>
    requires i <= |es|
    decreases |es| - i
  {
    if i == |es| then es + [MakeEntry(r, 0)]
    else match Meet(es[i], r)
      case Pass => Record(es, r, i + 1)
      case Reuse => es[i := MakeEntry(r, Bump(es[i]))]
      case Drop => es
  }

  // ---- the same without the order of the tests -----------------------------------------------------------

  /** Entry `e` is the one that record `r` has to do with: for an object the entry of this object, and of a directory
      entry array also its deletion; for a deletion of a directory entry array the entry of its id; for any other
      deletion an older entry of the inode with a greater id. */
  ghost predicate Concerns(r: Rec, e: SumEntry) {
    var dentarr := r.id / 0x2000_0000 % 8 == 2;
    if r.Del? && !dentarr then
      e.id / 0x1_0000_0000 == r.id / 0x1_0000_0000 && e.id > r.id && e.sqnum < r.addr.sqnum
    else e.id == r.id && (dentarr || e.flagAndOffs / 0x8000_0000 % 2 == 0)
  }

  /** Entry `i` is the first one that `r` has to do with: it is replaced, unless it is newer. */
  ghost predicate ReplacedAt(es: seq<SumEntry>, r: Rec, es': seq<SumEntry>, i: nat) {
    && i < |es| && Concerns(r, es[i]) && (forall k :: 0 <= k < i ==> !Concerns(r, es[k]))
    && es' == if es[i].sqnum > r.addr.sqnum then es
              else es[i := SumEntry(r.id, r.addr.sqnum, r.addr.len, FlagAndOffs(r), (es[i].count + 1) % 0x1_0000)]
  }

  ghost function FlagAndOffs(r: Rec): nat {
    if r.Del? then 0x8000_0000 + r.addr.offs else r.addr.offs
  }

  /** The first entry that `r` has to do with is replaced; if there is none, one is added. */
  ghost predicate Recorded(es: seq<SumEntry>, r: Rec, es': seq<SumEntry>) {
    if exists i :: 0 <= i < |es| && Concerns(r, es[i]) then exists i: nat :: ReplacedAt(es, r, es', i)
    else es' == es + [SumEntry(r.id, r.addr.sqnum, r.addr.len, FlagAndOffs(r), 0)]
  }

  lemma MeetConcerns(e: SumEntry, r: Rec)
    ensures Meet(e, r) == if !Concerns(r, e) then Pass else if e.sqnum > r.addr.sqnum then Drop else Reuse
  {
  }

  lemma {:induction false} RecordFrom(es: seq<SumEntry>, r: Rec, i: nat)
    requires i <= |es| && forall k :: 0 <= k < i ==> !Concerns(r, es[k])
    ensures Recorded(es, r, Record(es, r, i))
    decreases |es| - i
  {
    hide Meet, Concerns;
    if i < |es| {
      MeetConcerns(es[i], r);
      if !Concerns(r, es[i]) {
        RecordFrom(es, r, i + 1);
      } else {
        assert ReplacedAt(es, r, Record(es, r, i), i);
      }
    }
  }

  class Summary {
    var entries: seq<SumEntry>

    constructor ()
      ensures entries == []
    {
      entries := [];
    }

    /** Records one object or deletion. */
    method SumObj(r: Rec)
      modifies this
      ensures entries == Record(old(entries), r, 0)
      ensures Recorded(old(entries), r, entries)
    {
      hide Recorded;
      RecordFrom(entries, r, 0);
      var i := 0;
      if r.Del? {
        while i < |entries|
          invariant i <= |entries| && entries == old(entries)
          invariant Record(entries, r, i) == Record(entries, r, 0)
        {
          var e := entries[i];
          if TypeField(r.id) == DENTARR_TYPE {
            if e.id == r.id {
              if e.sqnum > r.addr.sqnum {
                return;
              }
              break;
            }
          } else if Inum(e.id) == Inum(r.id) && e.id > r.id {
            if e.sqnum < r.addr.sqnum {
              break;
            }
          }
          i := i + 1;
        }
      } else {
        while i < |entries|
          invariant i <= |entries| && entries == old(entries)
          invariant Record(entries, r, i) == Record(entries, r, 0)
        {
          var e := entries[i];
          if !(EntryIsDel(e) && TypeField(r.id) != DENTARR_TYPE) && e.id == r.id {
            if e.sqnum > r.addr.sqnum {
              return;
            }
            break;
          }
          i := i + 1;
        }
      }
      entries := if i == |entries| then entries + [MakeEntry(r, 0)] else entries[i := MakeEntry(r, Bump(entries[i]))];
    }
  }

  /** An object has one entry at most, and a directory entry array and its deletion have one together. */
  ghost predicate OneEach(es: seq<SumEntry>) {
    forall i, j :: 0 <= i < j < |es| && es[i].id == es[j].id ==> MayBoth(es[i], es[j])
  }

  ghost predicate MayBoth(e: SumEntry, f: SumEntry) {
    e.id / 0x2000_0000 % 8 != 2 && (e.flagAndOffs >= 0x8000_0000 || f.flagAndOffs >= 0x8000_0000)
  }

  lemma RecordOneEach(es: seq<SumEntry>, r: Rec)
    requires OneEach(es) && r.addr.offs < 0x8000_0000
    requires forall e :: e in es ==> e.flagAndOffs < 0x1_0000_0000
    ensures OneEach(Record(es, r, 0)) && forall e :: e in Record(es, r, 0) ==> e.flagAndOffs < 0x1_0000_0000
  {
    hide Record, Concerns, OneEach;
    RecordFrom(es, r, 0);
    var es' := Record(es, r, 0);
    if exists i :: 0 <= i < |es| && Concerns(r, es[i]) {
      var i: nat :| ReplacedAt(es, r, es', i);
      if es' != es {
        OneReplaced(es, r, i, es'[i]);
      }
    } else {
      OneAdded(es, r, es'[|es|]);
    }
  }

  lemma OneReplaced(es: seq<SumEntry>, r: Rec, i: nat, e: SumEntry)
    requires OneEach(es) && i < |es| && Concerns(r, es[i]) && e.id == r.id
    requires e.flagAndOffs >= 0x8000_0000 <==> r.Del?
    requires forall f :: f in es ==> f.flagAndOffs < 0x1_0000_0000
    ensures OneEach(es[i := e])
  {
    var es' := es[i := e];
    forall j, k | 0 <= j < k < |es'| && es'[j].id == es'[k].id ensures MayBoth(es'[j], es'[k]) {
      assert es[j] in es && es[k] in es;
    }
  }

  lemma OneAdded(es: seq<SumEntry>, r: Rec, e: SumEntry)
    requires OneEach(es) && (forall i :: 0 <= i < |es| ==> !Concerns(r, es[i])) && e.id == r.id
    requires e.flagAndOffs >= 0x8000_0000 <==> r.Del?
    requires forall f :: f in es ==> f.flagAndOffs < 0x1_0000_0000
    ensures OneEach(es + [e])
  {
    var es' := es + [e];
    forall j, k | 0 <= j < k < |es'| && es'[j].id == es'[k].id ensures MayBoth(es'[j], es'[k]) {
      assert es[j] in es;
    }
  }

  // ---- what makes a record irrelevant -------------------------------------------------------------------

  /** Once `s` is known, `f` makes no difference to any index. */
  ghost predicate Supersedes(s: Rec, f: Rec) {
    s == f || (s.addr.sqnum > f.addr.sqnum && Subsumes(s, f))
  }

  ghost predicate Subsumes(s: Rec, f: Rec) {
    if f.Obj? then (if s.Obj? then s.id == f.id else Covers(s.id, f.id))
    else if s.Obj? then TypeField(f.id) == DENTARR_TYPE && s.id == f.id
    else forall i: ObjId :: Covers(f.id, i) ==> Covers(s.id, i)
  }

  lemma SupersedesTransitive(a: Rec, b: Rec, c: Rec)
    requires Supersedes(a, b) && Supersedes(b, c)
    ensures Supersedes(a, c)
  {
    if b.Del? && c.Del? && a.Del? {
    } else if c.Del? && b.Del? {
      assert Covers(c.id, c.id);
      assert Covers(b.id, c.id);
    } else if c.Del? && a.Del? {
      assert forall i: ObjId :: Covers(c.id, i) ==> i == c.id;
    }
  }

  /** Every record of `full` is in `part` or made irrelevant by one that is. */
  ghost predicate StandsFor(part: set<Rec>, full: set<Rec>) {
    part <= full && forall f {:trigger HasStand(part, f)} :: f in full ==> HasStand(part, f)
  }

  ghost predicate HasStand(part: set<Rec>, f: Rec) {
    exists s :: s in part && Supersedes(s, f)
  }

  lemma Stand(part: set<Rec>, full: set<Rec>, f: Rec) returns (s: Rec)
    requires StandsFor(part, full) && f in full
    ensures s in part && s in full && Supersedes(s, f)
  {
    assert HasStand(part, f);
    s :| s in part && Supersedes(s, f);
  }

  /** A live record cannot have been made irrelevant. */
  lemma LiveKept(part: set<Rec>, full: set<Rec>, rest: set<Rec>, r: Rec)
    requires StandsFor(part, full) && Live(full + rest, r)
    ensures Live(part + rest, r)
  {
    if r in full {
      var s := Stand(part, full, r);
      assert s in full + rest;
    }
  }

  /** Nothing comes to life by leaving out irrelevant records. */
  lemma LiveStays(part: set<Rec>, full: set<Rec>, rest: set<Rec>, r: Rec)
    requires StandsFor(part, full) && Live(part + rest, r)
    ensures Live(full + rest, r)
  {
    forall q | q in full + rest && q.Obj? && q.id == r.id ensures q.addr.sqnum <= r.addr.sqnum {
      if q in full {
        var s := Stand(part, full, q);
        assert s in part + rest;
      } else {
        assert q in part + rest;
      }
    }
    forall q | q in full + rest && q.Del? && Covers(q.id, r.id) ensures q.addr.sqnum <= r.addr.sqnum {
      if q in full {
        var s := Stand(part, full, q);
        assert s in part + rest;
      } else {
        assert q in part + rest;
      }
    }
  }

  /** The records left out of a summary change no index, whatever else is on flash. */
  lemma SummarySuffices(part: set<Rec>, full: set<Rec>, rest: set<Rec>, m: Idx)
    requires StandsFor(part, full)
    ensures IsIndex(m, full + rest) <==> IsIndex(m, part + rest)
  {
    forall r | Live(full + rest, r) ensures Live(part + rest, r) {
      LiveKept(part, full, rest, r);
    }
    forall r | Live(part + rest, r) ensures Live(full + rest, r) {
      LiveStays(part, full, rest, r);
    }
  }

  // ---- runs -----------------------------------------------------------------------------------------

  ghost function Recs(lnum: nat, es: seq<SumEntry>): set<Rec> {
    set i | 0 <= i < |es| :: RecOf(lnum, es[i])
  }

  /** An entry is reused only for a record that supersedes it, and a record is dropped only when an
      entry supersedes it. */
  lemma MeetSound(lnum: nat, e: SumEntry, r: Rec)
    requires e.sqnum != r.addr.sqnum
    ensures Meet(e, r).Reuse? ==> Supersedes(r, RecOf(lnum, e))
    ensures Meet(e, r).Drop? ==> Supersedes(RecOf(lnum, e), r)
  {
  }

  lemma StandsReplaced(part: set<Rec>, full: set<Rec>, gone: Rec, r: Rec, part': set<Rec>)
    requires StandsFor(part, full) && Supersedes(r, gone)
    requires part' <= part + {r} && r in part' && forall s :: s in part && s != gone ==> s in part'
    ensures StandsFor(part', full + {r})
  {
    forall f | f in full + {r} ensures HasStand(part', f) {
      if f in full {
        var s := Stand(part, full, f);
        if s == gone {
          SupersedesTransitive(r, gone, f);
        } else {
          assert s in part';
        }
      } else {
        assert Supersedes(r, f);
      }
    }
  }

  lemma StandsDropped(part: set<Rec>, full: set<Rec>, s: Rec, r: Rec)
    requires StandsFor(part, full) && s in part && Supersedes(s, r) && r !in full
    ensures HasStand(part, r)
    ensures StandsFor(part, full + {r})
  {
    forall f | f in full + {r} ensures HasStand(part, f) {
      if f in full {
        var s := Stand(part, full, f);
      } else {
        assert Supersedes(s, f);
      }
    }
  }

  lemma {:induction false} RecordStands(lnum: nat, es: seq<SumEntry>, r: Rec, i: nat, full: set<Rec>)
    requires i <= |es| && StandsFor(Recs(lnum, es), full) && In(lnum, r)
    requires forall f :: f in full ==> f.addr.sqnum != r.addr.sqnum
    ensures StandsFor(Recs(lnum, Record(es, r, i)), full + {r})
    ensures |Record(es, r, i)| <= |es| + 1
    decreases |es| - i
  {
    EntryRoundTrip(lnum, r);
    var es' := Record(es, r, i);
    if i == |es| {
      assert Recs(lnum, es') == Recs(lnum, es) + {r} by {
        RecsAppend(lnum, es, MakeEntry(r, 0));
      }
      StandsReplaced(Recs(lnum, es), full, r, r, Recs(lnum, es'));
    } else {
      assert RecOf(lnum, es[i]) in Recs(lnum, es);
      MeetSound(lnum, es[i], r);
      match Meet(es[i], r)
      case Pass => RecordStands(lnum, es, r, i + 1, full);
      case Reuse =>
        RecsUpdate(lnum, es, i, MakeEntry(r, Bump(es[i])));
        StandsReplaced(Recs(lnum, es), full, RecOf(lnum, es[i]), r, Recs(lnum, es'));
      case Drop => StandsDropped(Recs(lnum, es), full, RecOf(lnum, es[i]), r);
    }
  }

  lemma RecsAppend(lnum: nat, es: seq<SumEntry>, e: SumEntry)
    ensures Recs(lnum, es + [e]) == Recs(lnum, es) + {RecOf(lnum, e)}
  {
    var es' := es + [e];
    assert es'[|es|] == e;
    forall i | 0 <= i < |es| ensures RecOf(lnum, es[i]) in Recs(lnum, es') {
      assert es'[i] == es[i];
    }
  }

  lemma RecsUpdate(lnum: nat, es: seq<SumEntry>, i: nat, e: SumEntry)
    requires i < |es|
    ensures Recs(lnum, es[i := e]) <= Recs(lnum, es) + {RecOf(lnum, e)} && RecOf(lnum, e) in Recs(lnum, es[i := e])
    ensures forall s :: s in Recs(lnum, es) && s != RecOf(lnum, es[i]) ==> s in Recs(lnum, es[i := e])
  {
    var es' := es[i := e];
    assert es'[i] == e;
    forall s | s in Recs(lnum, es) && s != RecOf(lnum, es[i]) ensures s in Recs(lnum, es') {
      var j :| 0 <= j < |es| && s == RecOf(lnum, es[j]);
      assert es'[j] == es[j];
    }
    forall s | s in Recs(lnum, es') ensures s in Recs(lnum, es) + {RecOf(lnum, e)} {
      var j :| 0 <= j < |es| && s == RecOf(lnum, es'[j]);
      if j != i { assert es'[j] == es[j]; }
    }
  }

  /** The summary after a run of records. */
  function SumAll(rs: seq<Rec>): seq<SumEntry> {
    if rs == [] then [] else Record(SumAll(rs[..|rs| - 1]), rs[|rs| - 1], 0)
  }

  lemma {:induction false} SumOneEach(rs: seq<Rec>)
    requires forall r :: r in rs ==> r.addr.offs < 0x8000_0000
    ensures OneEach(SumAll(rs)) && forall e :: e in SumAll(rs) ==> e.flagAndOffs < 0x1_0000_0000
    decreases |rs|
  {
    hide Record;
    if rs != [] {
      SumOneEach(rs[..|rs| - 1]);
      RecordOneEach(SumAll(rs[..|rs| - 1]), rs[|rs| - 1]);
    }
  }

  /** The records of one erase-block, in the order in which they were written. */
  ghost predicate Run(lnum: nat, rs: seq<Rec>) {
    && (forall r :: r in rs ==> In(lnum, r))
    && (forall i, j :: 0 <= i < j < |rs| ==> rs[i].addr.sqnum != rs[j].addr.sqnum)
  }

  /** After every run the summary stands for all the records of the erase-block. */
  lemma {:induction false} SummaryOfRun(lnum: nat, rs: seq<Rec>)
    requires Run(lnum, rs)
    ensures StandsFor(Recs(lnum, SumAll(rs)), Members(rs)) && |SumAll(rs)| <= |rs|
  {
    if rs != [] {
      var n := |rs| - 1;
      var init, r := rs[..n], rs[n];
      assert Members(rs) == Members(init) + {r};
      SummaryOfRun(lnum, init);
      forall f | f in Members(init) ensures f.addr.sqnum != r.addr.sqnum {
        var i :| 0 <= i < n && init[i] == f;
        assert rs[i] == f;
      }
      RecordStands(lnum, SumAll(init), r, 0, Members(init));
    }
  }

  /** Rebuilding the index from the summary of one erase-block and any other records gives the index
      that rebuilding from every record of that erase-block would give. */
  lemma SummaryMount(lnum: nat, rs: seq<Rec>, rest: set<Rec>, os: seq<Rec>, ds: seq<Rec>, os': seq<Rec>, ds': seq<Rec>)
    requires Run(lnum, rs) && Distinct(Members(rs) + rest)
    requires Objects(os) && Deletions(ds) && Members(os) + Members(ds) == Members(rs) + rest
    requires Objects(os') && Deletions(ds') && Members(os') + Members(ds') == Recs(lnum, SumAll(rs)) + rest
    ensures Replay(map[], os' + ds') == Replay(map[], os + ds)
  {
    SummaryOfRun(lnum, rs);
    TwoPasses(os, ds);
    assert Recs(lnum, SumAll(rs)) + rest <= Members(rs) + rest;
    TwoPasses(os', ds');
    var m, m' := Replay(map[], os + ds), Replay(map[], os' + ds');
    SummarySuffices(Recs(lnum, SumAll(rs)), Members(rs), rest, m');
    IndexUnique(m, m', Members(rs) + rest);
  }
}
