/** The cache of contiguous runs that shortens walks along a file's cluster chain. */
module FatCache {
  import opened FatBytes
  import opened FatTable
  import opened FatWalk
  import opened FatCursor
  import opened FatAlloc

  const FAT_MAX_CACHE: nat := 8
  const FAT_CACHE_VALID: nat := 0
  const UINT_SIZE: nat := 0x1_0000_0000

  /** Clusters `fclus..fclus + n` of the file are clusters `dclus..dclus + n` on disk. */
  datatype Run = Run(fclus: nat, dclus: nat, n: nat)

  /** The run that a walk is building; -1 stands for none. */
  datatype CacheId = CacheId(id: nat, n: int, fclus: int, dclus: int)

  ghost predicate RunAt(t: Table, limit: nat, start: nat, r: Run, k: nat) {
    Reaches(t, limit, start, r.fclus + k, r.dclus + k)
  }

  ghost predicate RunOk(t: Table, limit: nat, start: nat, r: Run) {
    r.fclus >= 1 && forall k :: 0 <= k <= r.n ==> RunAt(t, limit, start, r, k)
  }

  ghost predicate RunsOk(t: Table, limit: nat, start: nat, rs: seq<Run>) {
    forall r :: r in rs ==> RunOk(t, limit, start, r)
  }

  ghost predicate EndBy(rs: seq<Run>, b: nat) {
    forall r :: r in rs ==> r.fclus + r.n <= b
  }

  function ToFront(rs: seq<Run>, i: nat, r: Run): (rs': seq<Run>)
    requires i < |rs|
    ensures |rs'| == |rs|
  {
    [r] + rs[..i] + rs[i + 1..]
  }

  /** The first run that starts at cluster `f` of the file, or the length if there is none. */
  function FindRun(rs: seq<Run>, f: nat, i: nat): (k: nat)
    requires i <= |rs|
    ensures i <= k <= |rs| && (k < |rs| ==> rs[k].fclus == f)
    decreases |rs| - i
  {
    if i == |rs| || rs[i].fclus == f then i else FindRun(rs, f, i + 1)
  }

  /** The runs after `r` was added: merged with the run that starts alike, or in front, with the least
      recently used one dropped if there are too many. */
  function Added(rs: seq<Run>, r: Run): (rs': seq<Run>)
    ensures rs' != [] && rs'[0].fclus == r.fclus && rs'[0].n >= r.n
  {
    var k := FindRun(rs, r.fclus, 0);
    if k < |rs| then ToFront(rs, k, if r.n > rs[k].n then rs[k].(n := r.n) else rs[k])
    else if |rs| < FAT_MAX_CACHE then [r] + rs
    else [r] + rs[..|rs| - 1]
  }

  /** The run, or the longer one that starts alike, is in front, and the others keep their order: all of them, or
      the seven most recently used ones. */
  ghost predicate AddedTo(rs: seq<Run>, rs': seq<Run>, r: Run) {
    if exists k :: 0 <= k < |rs| && rs[k].fclus == r.fclus then
      exists k :: && 0 <= k < |rs| && rs[k].fclus == r.fclus && (forall j :: 0 <= j < k ==> rs[j].fclus != r.fclus)
                  && rs' == [if r.n > rs[k].n then Run(r.fclus, rs[k].dclus, r.n) else rs[k]] + rs[..k] + rs[k + 1..]
    else rs' == [r] + if |rs| < 8 then rs else rs[..|rs| - 1]
  }

  lemma {:induction false} FirstRun(rs: seq<Run>, f: nat, i: nat)
    requires i <= |rs|
    ensures forall j :: i <= j < FindRun(rs, f, i) ==> rs[j].fclus != f
    decreases |rs| - i
  {
    if i < |rs| && rs[i].fclus != f {
      FirstRun(rs, f, i + 1);
    }
  }

  lemma AddedIs(rs: seq<Run>, r: Run)
    ensures AddedTo(rs, Added(rs, r), r)
  {
    FirstRun(rs, r.fclus, 0);
    var k := FindRun(rs, r.fclus, 0);
    if k < |rs| {
      assert rs[k].fclus == r.fclus;
    }
  }

  lemma FrontRuns(rs: seq<Run>, i: nat, r: Run)
    requires i < |rs|
    ensures forall q :: q in ToFront(rs, i, r) ==> q == r || q in rs
  {
  }

  lemma TheRun(t: Table, limit: nat, start: nat, rs: seq<Run>, i: nat)
    requires RunsOk(t, limit, start, rs) && i < |rs|
    ensures RunOk(t, limit, start, rs[i])
  {
    assert rs[i] in rs;
  }

  lemma RunsFront(t: Table, limit: nat, start: nat, rs: seq<Run>, i: nat, r: Run)
    requires RunsOk(t, limit, start, rs) && i < |rs| && RunOk(t, limit, start, r)
    ensures RunsOk(t, limit, start, ToFront(rs, i, r))
  {
    hide RunOk;
    FrontRuns(rs, i, r);
  }

  lemma InsideRun(t: Table, limit: nat, start: nat, r: Run, k: nat)
    requires RunOk(t, limit, start, r) && k <= r.n
    ensures Reaches(t, limit, start, r.fclus + k, r.dclus + k)
  {
    assert RunAt(t, limit, start, r, k);
  }

  lemma AddedOk(t: Table, limit: nat, start: nat, rs: seq<Run>, r: Run)
    requires RunsOk(t, limit, start, rs) && RunOk(t, limit, start, r) && |rs| <= FAT_MAX_CACHE
    ensures RunsOk(t, limit, start, Added(rs, r))
    ensures |Added(rs, r)| == if FindRun(rs, r.fclus, 0) < |rs| || |rs| == FAT_MAX_CACHE then |rs| else |rs| + 1
  {
    hide RunOk, ToFront;
    var k := FindRun(rs, r.fclus, 0);
    if k < |rs| {
      TheRun(t, limit, start, rs, k);
      SameCluster(t, limit, start, rs[k], r);
      var q := if r.n > rs[k].n then rs[k].(n := r.n) else rs[k];
      assert q == r || q == rs[k];
      RunsFront(t, limit, start, rs, k, q);
    }
  }

  lemma AddedEnds(rs: seq<Run>, r: Run)
    ensures forall b :: EndBy(rs, b) && r.fclus + r.n <= b ==> EndBy(Added(rs, r), b)
  {
    forall b | EndBy(rs, b) && r.fclus + r.n <= b ensures EndBy(Added(rs, r), b) {
      var k := FindRun(rs, r.fclus, 0);
      if k < |rs| {
        assert rs[k] in rs;
        FrontRuns(rs, k, if r.n > rs[k].n then rs[k].(n := r.n) else rs[k]);
      }
    }
  }

  lemma RunsStart(t: Table, limit: nat, start: nat, rs: seq<Run>)
    requires RunsOk(t, limit, start, rs)
    ensures forall k :: 0 <= k < |rs| ==> rs[k].fclus >= 1
  {
    forall k | 0 <= k < |rs| ensures rs[k].fclus >= 1 {
      TheRun(t, limit, start, rs, k);
    }
  }

  class Inode {
    var start: nat
    var logstart: nat
    /** Blocks allocated, in clusters. */
    var blocks: nat
    /** The cached runs, most recently used first. */
    var lru: seq<Run>
    var nrCaches: nat
    var validId: nat

    ghost predicate CacheOk(t: Table, limit: nat)
      reads this
    {
      nrCaches == |lru| <= FAT_MAX_CACHE && validId != FAT_CACHE_VALID && RunsOk(t, limit, start, lru)
    }

    constructor ()
      ensures start == 0 && logstart == 0 && blocks == 0 && lru == [] && nrCaches == 0 && validId == 1
      ensures forall t, limit :: CacheOk(t, limit)
    {
      start, logstart, blocks, lru, nrCaches, validId := 0, 0, 0, [], 0, FAT_CACHE_VALID + 1;
    }

    /** Looks for the run that holds `fclus`, or the nearest one before it. */
    method Lookup(fclus: nat, ghost t: Table, ghost limit: nat) returns (offset: int, cid: CacheId, cf: nat, cd: nat)
      requires CacheOk(t, limit)
      modifies this`lru
      ensures CacheOk(t, limit) && multiset(lru) == multiset(old(lru))
      ensures if offset < 0 then lru == old(lru) else OneInFront(old(lru), lru)
      ensures offset >= 0 ==> CidOk(t, limit, start, cid) && cid.id == validId && cid.fclus >= 1
      ensures offset >= 0 ==> Run(cid.fclus, cid.dclus, cid.n) in lru && Reaches(t, limit, start, cf, cd) && cf <= fclus
      ensures offset >= 0 ==>
                cf == cid.fclus + offset && (cf == fclus || cf == cid.fclus + cid.n) && cf <= cid.fclus + cid.n
      ensures offset >= 0 ==> lru[0] == Run(cid.fclus, cid.dclus, cid.n)
      ensures offset < 0 ==> forall r :: r in lru ==> r.fclus > fclus
      ensures 0 <= offset && cf < fclus ==> forall r :: r in lru && r.fclus <= fclus ==> r.fclus <= cid.fclus
    {
      hide Reaches, RunsOk, RunOk, ToFront, OneInFront;
      cid, cf, cd := CacheId(0, 0, 0, 0), 0, 0;
      offset := -1;
      var hit, i := -1, 0;
      RunsStart(t, limit, start, lru);
      while i < |lru|
        invariant -1 <= hit < i <= |lru| && lru == old(lru)
        invariant offset >= 0 <==> hit >= 0
        invariant hit >= 0 ==> lru[hit].fclus <= fclus && offset == lru[hit].n < fclus - lru[hit].fclus
        invariant forall k :: 0 <= k < i && lru[k].fclus <= fclus ==> hit >= 0 && lru[k].fclus <= lru[hit].fclus
      {
        var p := lru[i];
        if p.fclus <= fclus && (if hit < 0 then 0 else lru[hit].fclus) < p.fclus {
          hit := i;
          if p.fclus + p.n < fclus {
            offset := p.n;
          } else {
            offset := fclus - p.fclus;
            break;
          }
        }
        i := i + 1;
      }
      if hit >= 0 {
        var p := lru[hit];
        HitMoved(t, limit, start, lru, hit, offset);
        lru := ToFront(lru, hit, p);
        cid := CacheId(validId, p.n, p.fclus, p.dclus);
        cf, cd := cid.fclus + offset, cid.dclus + offset;
      }
    }

    /** Extends the run that starts like `cid`, if there is one. */
    method Merge(cid: CacheId, ghost t: Table, ghost limit: nat) returns (found: bool)
      requires CacheOk(t, limit) && CidOk(t, limit, start, cid) && cid.fclus >= 1
      modifies this`lru
      ensures found <==> FindRun(old(lru), cid.fclus, 0) < |old(lru)|
      ensures lru == if found then Added(old(lru), Run(cid.fclus, cid.dclus, cid.n)) else old(lru)
    {
      hide Reaches, RunsOk, RunOk, ToFront;
      found := false;
      var i := 0;
      while i < |lru|
        invariant i <= |lru| && lru == old(lru) && FindRun(lru, cid.fclus, 0) == FindRun(lru, cid.fclus, i)
      {
        var p := lru[i];
        if p.fclus == cid.fclus {
          TheRun(t, limit, start, lru, i);
          SameCluster(t, limit, start, p, Run(cid.fclus, cid.dclus, cid.n));
          assert p.dclus == cid.dclus;
          if cid.n > p.n {
            p := p.(n := cid.n);
          }
          lru := ToFront(lru, i, p);
          return true;
        }
        i := i + 1;
      }
    }

    /** Remembers the run of a walk; the least recently used one makes room for it. */
    method Add(cid: CacheId, ghost t: Table, ghost limit: nat)
      requires CacheOk(t, limit) && (cid.fclus == -1 || (CidOk(t, limit, start, cid) && cid.fclus >= 1))
      modifies this`lru, this`nrCaches
      ensures CacheOk(t, limit)
      ensures lru == if cid.fclus != -1 && cid.id in {FAT_CACHE_VALID, validId}
              then Added(old(lru), Run(cid.fclus, cid.dclus, cid.n)) else old(lru)
      ensures |lru| <= 8 && (cid.fclus != -1 && cid.id in {0, validId} ==>
                AddedTo(old(lru), lru, Run(cid.fclus, cid.dclus, cid.n)))
      ensures forall b :: EndBy(old(lru), b) && cid.fclus + cid.n <= b ==> EndBy(lru, b)
    {
      hide Reaches, RunOk, RunsOk, ToFront, EndBy, FindRun, AddedTo;
      if cid.fclus == -1 {
        return;
      }
      if cid.id != FAT_CACHE_VALID && cid.id != validId {
        return;
      }
      var r := Run(cid.fclus, cid.dclus, cid.n);
      AddedOk(t, limit, start, lru, r);
      AddedIs(lru, r);
      AddedEnds(lru, r);
      var found := Merge(cid, t, limit);
      if !found {
        if nrCaches < FAT_MAX_CACHE {
          nrCaches := nrCaches + 1;
          lru := [r] + lru;
        } else {
          lru := [r] + lru[..|lru| - 1];
        }
      }
    }

    /** Forgets all runs. */
    method Invalidate()
      requires nrCaches == |lru|
      modifies this`lru, this`nrCaches, this`validId
      ensures lru == [] && nrCaches == 0
      ensures validId == if (old(validId) + 1) % 0x1_0000_0000 == 0 then 1 else (old(validId) + 1) % 0x1_0000_0000
    {
      while lru != []
        invariant nrCaches == |lru| && validId == old(validId)
        decreases |lru|
      {
        lru, nrCaches := lru[1..], nrCaches - 1;
      }
      validId := (validId + 1) % UINT_SIZE;
      if validId == FAT_CACHE_VALID {
        validId := validId + 1;
      }
    }

    /** Finds cluster number `target` of the file: the outcome is that of a walk without a cache. */
    method GetCluster(v: Fat, limit: nat, target: nat) returns (st: Status, fclus: nat, dclus: nat)
      requires v.Valid() && start != 0 && CacheOk(v.Ents(), limit)
      modifies this`lru, this`nrCaches
      ensures Walked(st, fclus, dclus) == Walk(v.Ents(), limit, 0, start, target)
      ensures forall cs, w :: Links(v.kind, v.table[..], v.max, cs, w) && cs[0] == start ==>
                Walked(st, fclus, dclus) == LinksEnd(v.kind, cs, w, limit, target)
      ensures CacheOk(v.Ents(), limit)
      ensures st == Done && target > 0 ==> lru != [] && lru[0].fclus <= target <= lru[0].fclus + lru[0].n
      ensures forall b :: EndBy(old(lru), b) && target <= b ==> EndBy(lru, b)
    {
      hide Reaches, RunsOk, EndBy, CidOk, Added, Entries, Cursor.Positioned, Offs, Width, Bad, Covers, FatBytes.Get,
           Links, LinksEnd;
      ghost var t := v.Ents();
      WalkBytes(v.kind, v.table[..], v.max, limit, start, target);
      fclus, dclus := 0, start;
      StartReached(t, limit, start);
      if target == 0 {
        return Done, fclus, dclus;
      }
      var offset, cid, cf, cd := Lookup(target, t, limit);
      SameEnds(old(lru), lru);
      if offset < 0 {
        cid := CacheId(FAT_CACHE_VALID, 0, -1, -1);
      } else {
        fclus, dclus := cf, cd;
        EndsOf(lru, cid);
      }
      ResumeAll(t, limit, start, fclus, dclus, target);
      ghost var lru1 := lru;
      var fatent := v.NewCursor();
      while fclus < target
        invariant fresh(fatent) && fatent.Over(v.kind, v.table, v.size, v.max)
        invariant fatent.nrBhs <= 2 && (!v.kind.Fat12? ==> fatent.nrBhs <= 1)
        invariant fclus <= target && Reaches(t, limit, start, fclus, dclus) && lru == lru1 && CacheOk(t, limit)
        invariant Walk(t, limit, 0, start, target) == Walk(t, limit, fclus, dclus, target)
        invariant cid.fclus == -1 ==> cid.dclus == -1 && cid.n == 0 && fclus == 0
        invariant cid.fclus != -1 ==>
                    && cid.fclus >= 1 && CidOk(t, limit, start, cid) && cid.dclus >= 0 && cid.n >= 0
                    && cid.id in {FAT_CACHE_VALID, validId}
        invariant cid.fclus != -1 ==>
                    cid.fclus <= fclus <= cid.fclus + cid.n && (fclus < target ==> cid.fclus + cid.n == fclus)
        invariant cid.fclus == -1 || cid.fclus + cid.n <= target ||
                  forall b :: EndBy(lru1, b) ==> cid.fclus + cid.n <= b
      {
        if fclus > limit {
          return Eio, fclus, dclus;
        }
        var inside, next := fatent.Read(dclus);
        if !inside || next == FAT_ENT_FREE {
          if inside { EntryAt(v.kind, v.table[..], v.max, dclus); }
          return Eio, fclus, dclus;
        }
        EntryAt(v.kind, v.table[..], v.max, dclus);
        if next == FAT_ENT_EOF {
          Add(cid, t, limit);
          return Eof, fclus, dclus;
        }
        StepOn(t, limit, start, fclus, dclus);
        fclus, dclus := fclus + 1, next;
        ghost var before := cid;
        cid := cid.(n := cid.n + 1);
        if cid.dclus + cid.n != dclus {
          cid := CacheId(FAT_CACHE_VALID, 0, fclus, dclus);
          CidStart(t, limit, start, cid);
        } else {
          CidGrows(t, limit, start, before);
        }
      }
      st := Done;
      Add(cid, t, limit);
    }
  }

  /** A run under construction is a run. */
  ghost predicate CidOk(t: Table, limit: nat, start: nat, c: CacheId) {
    c.n >= 0 && c.fclus >= 1 && c.dclus >= 0 && RunOk(t, limit, start, Run(c.fclus, c.dclus, c.n))
  }

  lemma StartReached(t: Table, limit: nat, start: nat)
    ensures Reaches(t, limit, start, 0, start)
  {
  }

  lemma ResumeAll(t: Table, limit: nat, start: nat, i: nat, d: nat, target: nat)
    requires Reaches(t, limit, start, i, d) && i <= target
    ensures Walk(t, limit, 0, start, target) == Walk(t, limit, i, d, target)
  {
    Resume(t, limit, 0, start, i, d, target);
  }

  lemma CidStart(t: Table, limit: nat, start: nat, c: CacheId)
    requires c.fclus >= 1 && c.dclus >= 0 && c.n == 0 && Reaches(t, limit, start, c.fclus, c.dclus)
    ensures CidOk(t, limit, start, c)
  {
  }

  lemma CidGrows(t: Table, limit: nat, start: nat, c: CacheId)
    requires CidOk(t, limit, start, c) && Reaches(t, limit, start, c.fclus + c.n + 1, c.dclus + c.n + 1)
    ensures CidOk(t, limit, start, c.(n := c.n + 1))
  {
    hide Reaches;
    var q, q' := Run(c.fclus, c.dclus, c.n), Run(c.fclus, c.dclus, c.n + 1);
    forall k | 0 <= k <= q'.n ensures RunAt(t, limit, start, q', k) {
      if k <= q.n { assert RunAt(t, limit, start, q, k); }
    }
  }

  /** Two runs that start at the same cluster of the file start at the same cluster on disk. */
  lemma SameCluster(t: Table, limit: nat, start: nat, p: Run, q: Run)
    requires RunOk(t, limit, start, p) && RunOk(t, limit, start, q) && p.fclus == q.fclus
    ensures p.dclus == q.dclus
  {
    assert RunAt(t, limit, start, p, 0);
    assert RunAt(t, limit, start, q, 0);
  }

  /** One run is now in front, and the others keep their order. */
  ghost predicate OneInFront(rs: seq<Run>, rs': seq<Run>) {
    exists k :: 0 <= k < |rs| && rs' == [rs[k]] + rs[..k] + rs[k + 1..]
  }

  lemma MovedToFront(rs: seq<Run>, i: nat)
    requires i < |rs|
    ensures multiset(ToFront(rs, i, rs[i])) == multiset(rs) && ToFront(rs, i, rs[i])[0] == rs[i]
    ensures forall q :: q in ToFront(rs, i, rs[i]) ==> q in rs
    ensures OneInFront(rs, ToFront(rs, i, rs[i]))
  {
    assert rs == rs[..i] + [rs[i]] + rs[i + 1..];
  }

  lemma HitMoved(t: Table, limit: nat, start: nat, rs: seq<Run>, i: nat, k: nat)
    requires RunsOk(t, limit, start, rs) && i < |rs| && k <= rs[i].n
    ensures var rs' := ToFront(rs, i, rs[i]);
            && RunsOk(t, limit, start, rs') && multiset(rs') == multiset(rs) && OneInFront(rs, rs') && rs'[0] == rs[i]
            && forall q :: q in rs' ==> q in rs
    ensures RunOk(t, limit, start, rs[i]) && Reaches(t, limit, start, rs[i].fclus + k, rs[i].dclus + k)
  {
    hide RunsOk, RunOk, ToFront, Reaches, OneInFront;
    TheRun(t, limit, start, rs, i);
    InsideRun(t, limit, start, rs[i], k);
    MovedToFront(rs, i);
    RunsFront(t, limit, start, rs, i, rs[i]);
  }

  lemma SameEnds(rs: seq<Run>, rs': seq<Run>)
    requires multiset(rs) == multiset(rs')
    ensures forall b :: EndBy(rs, b) ==> EndBy(rs', b)
  {
    forall r | r in rs' ensures r in rs {
      assert r in multiset(rs');
    }
  }

  lemma EndsOf(rs: seq<Run>, c: CacheId)
    requires c.fclus >= 0 && c.dclus >= 0 && c.n >= 0 && Run(c.fclus, c.dclus, c.n) in rs
    ensures forall b :: EndBy(rs, b) ==> c.fclus + c.n <= b
  {
    forall b | EndBy(rs, b) ensures c.fclus + c.n <= b {
      var r := Run(c.fclus, c.dclus, c.n);
      assert r in rs;
      assert r.fclus + r.n <= b;
    }
  }
}
