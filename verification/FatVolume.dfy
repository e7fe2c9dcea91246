/** Files on a FAT volume: appending clusters to a file and truncating it, over a shared table. */
module FatVolume {
  import opened FatBytes
  import opened FatTable
  import opened FatWalk
  import opened FatCache
  import opened FatCursor
  import opened FatAlloc

  // ---- chains of files ----------------------------------------------------------------------------------

  function First(cs: seq<nat>): nat {
    if cs == [] then 0 else cs[0]
  }

  /** `cs` are the clusters of a file; an empty file has none. */
  ghost predicate FileOk(t: Table, cs: seq<nat>) {
    cs != [] ==> Chain(t, cs[0], cs)
  }

  ghost predicate Apart(cs: seq<nat>, ds: seq<nat>) {
    forall e :: e in cs ==> e !in ds
  }

  /** Every file has its chain, and no cluster is on two chains. */
  ghost predicate Owns(t: Table, chains: map<Inode, seq<nat>>) {
    && (forall i :: i in chains ==> FileOk(t, chains[i]))
    && (forall i, j :: i in chains && j in chains && i != j ==> Apart(chains[i], chains[j]))
  }

  /** The clusters that are neither free nor on a chain. */
  ghost function Lost(t: Table, chains: map<Inode, seq<nat>>): set<nat> {
    set c | FAT_START_ENT <= c < |t| && t[c] != FAT_ENT_FREE && forall i :: i in chains ==> c !in chains[i]
  }

  /** One file's chain changes from `cs` to `cs'`: added clusters were free, dropped ones are free
      afterwards, and the rest of the table stays. */
  ghost predicate Step(t: Table, t': Table, cs: seq<nat>, cs': seq<nat>) {
    && |t'| == |t| && FileOk(t', cs')
    && (forall e :: 0 <= e < |t| && e !in cs && e !in cs' ==> t'[e] == t[e])
    && (forall e :: e in cs' && e !in cs ==> InTable(t, e) && t[e] == FAT_ENT_FREE)
    && (forall e :: e in cs && e !in cs' && 0 <= e < |t| ==> t'[e] == FAT_ENT_FREE)
  }

  lemma ChainUsed(t: Table, cs: seq<nat>, e: nat)
    requires FileOk(t, cs) && e in cs
    ensures InTable(t, e) && t[e] != FAT_ENT_FREE
  {
    var i :| 0 <= i < |cs| && cs[i] == e;
    if i < |cs| - 1 { assert InTable(t, cs[i + 1]); }
  }

  lemma StepOthers(t: Table, t': Table, cs: seq<nat>, cs': seq<nat>, ds: seq<nat>)
    requires Step(t, t', cs, cs') && FileOk(t, cs) && FileOk(t, ds) && Apart(cs, ds)
    ensures FileOk(t', ds) && Apart(cs', ds) && forall e :: e in ds ==> e < |t| && t'[e] == t[e]
  {
    forall e | e in ds ensures e !in cs && e !in cs' && InTable(t, e) && t'[e] == t[e] {
      ChainUsed(t, ds, e);
    }
    if ds != [] {
      ChainKept(t, t', ds[0], ds);
    }
  }

  lemma StepOwns(t: Table, t': Table, chains: map<Inode, seq<nat>>, i: Inode, cs': seq<nat>)
    requires Owns(t, chains) && i in chains && Step(t, t', chains[i], cs')
    ensures Owns(t', chains[i := cs'])
  {
    hide Step, FileOk;
    var chains' := chains[i := cs'];
    StepFile(t, t', chains[i], cs');
    forall j | j in chains' ensures FileOk(t', chains'[j]) {
      if j != i { StepOthers(t, t', chains[i], cs', chains[j]); }
    }
    forall j, k | j in chains' && k in chains' && j != k ensures Apart(chains'[j], chains'[k]) {
      if j == i {
        StepOthers(t, t', chains[i], cs', chains[k]);
      } else if k == i {
        StepOthers(t, t', chains[i], cs', chains[j]);
      } else {
        assert Apart(chains[j], chains[k]);
      }
    }
  }

  lemma StepFile(t: Table, t': Table, cs: seq<nat>, cs': seq<nat>)
    requires Step(t, t', cs, cs')
    ensures FileOk(t', cs')
  {
  }

  /** Clusters are neither lost nor found. */
  lemma StepLost(t: Table, t': Table, chains: map<Inode, seq<nat>>, i: Inode, cs': seq<nat>)
    requires Owns(t, chains) && i in chains && Step(t, t', chains[i], cs')
    ensures Lost(t', chains[i := cs']) == Lost(t, chains)
  {
    var cs, chains' := chains[i], chains[i := cs'];
    forall c | c in Lost(t, chains) ensures c in Lost(t', chains') {
      assert c !in cs;
      assert c !in cs';
    }
    forall c | c in Lost(t', chains') ensures c in Lost(t, chains) {
      assert chains'[i] == cs' && c !in cs';
      assert c !in cs;
      forall j | j in chains ensures c !in chains[j] {
        if j != i { assert chains'[j] == chains[j]; }
      }
    }
  }

  // ---- cached runs in a changed table -------------------------------------------------------------------------

  lemma NoRuns(t: Table, limit: nat, rs: seq<Run>)
    requires RunsOk(t, limit, 0, rs)
    ensures rs == []
  {
    if rs != [] {
      TheRun(t, limit, 0, rs, 0);
      InsideRun(t, limit, 0, rs[0], 0);
      assert false;
    }
  }

  /** Runs that end before the first changed cluster of the chain stay valid. */
  lemma RunsBefore(t: Table, t': Table, limit: nat, cs: seq<nat>, rs: seq<Run>, b: nat)
    requires SizeOk(t) && FileOk(t, cs) && RunsOk(t, limit, First(cs), rs) && EndBy(rs, b) && |t'| == |t|
    requires forall j :: 0 <= j < b && j < |cs| ==> cs[j] < |t| && t'[cs[j]] == t[cs[j]]
    ensures RunsOk(t', limit, First(cs), rs)
  {
    hide Chain, Reaches;
    if cs == [] {
      NoRuns(t, limit, rs);
    } else {
      forall r | r in rs ensures RunOk(t', limit, cs[0], r) {
        forall k | 0 <= k <= r.n ensures RunAt(t', limit, cs[0], r, k) {
          assert RunAt(t, limit, cs[0], r, k);
          ReachesBefore(t, t', limit, cs[0], cs, r.fclus + k, r.dclus + k);
        }
      }
    }
  }

  lemma RunsElsewhere(t: Table, t': Table, limit: nat, cs: seq<nat>, rs: seq<Run>)
    requires SizeOk(t) && FileOk(t, cs) && RunsOk(t, limit, First(cs), rs) && |t'| == |t|
    requires forall e :: e in cs ==> e < |t| && t'[e] == t[e]
    ensures RunsOk(t', limit, First(cs), rs)
  {
    hide RunsOk, FileOk;
    var b := LastEnd(rs);
    assert forall j :: 0 <= j < |cs| ==> cs[j] in cs;
    RunsBefore(t, t', limit, cs, rs, b);
  }

  lemma {:induction false} LastEnd(rs: seq<Run>) returns (b: nat)
    ensures EndBy(rs, b)
    decreases |rs|
  {
    if rs == [] {
      b := 0;
    } else {
      var c := LastEnd(rs[1..]);
      var e := rs[0].fclus + rs[0].n;
      b := if e > c then e else c;
      assert rs == [rs[0]] + rs[1..];
    }
  }

  /** Runs stay valid when only free entries and ends of chains change. */
  lemma RunsKept(t: Table, t': Table, limit: nat, start: nat, rs: seq<Run>)
    requires RunsOk(t, limit, start, rs) && |t'| == |t| && forall e: nat :: Leads(t, e) ==> t'[e] == t[e]
    ensures RunsOk(t', limit, start, rs)
  {
    hide Reaches;
    forall r | r in rs ensures RunOk(t', limit, start, r) {
      forall k | 0 <= k <= r.n ensures RunAt(t', limit, start, r, k) {
        assert RunAt(t, limit, start, r, k);
        ReachesKept(t, t', limit, start, r.fclus + k, r.dclus + k);
      }
    }
  }

  // ---- appending ------------------------------------------------------------------------------------------------

  /** The table after the chain that starts at `c` was hung behind `cs`. */
  function Hung(t: Table, cs: seq<nat>, c: nat): Table
    requires cs != [] ==> cs[|cs| - 1] < |t|
  {
    if cs == [] then t else t[cs[|cs| - 1] := c]
  }

  lemma HungChain(t: Table, cs: seq<nat>, ds: seq<nat>)
    requires SizeOk(t) && FileOk(t, cs) && FileOk(t, ds) && ds != [] && Apart(cs, ds)
    ensures (cs != [] ==> InTable(t, cs[|cs| - 1]) && t[cs[|cs| - 1]] == FAT_ENT_EOF)
            && FileOk(Hung(t, cs, ds[0]), cs + ds)
    ensures forall e: nat :: Leads(t, e) ==> Hung(t, cs, ds[0])[e] == t[e]
  {
    if cs != [] {
      ChainDistinct(t, cs[0], cs);
      var t', n := Hung(t, cs, ds[0]), |cs|;
      assert cs[n - 1] in cs;
      forall k | 0 <= k < |ds| ensures t'[ds[k]] == t[ds[k]] {
        assert ds[k] in ds;
      }
      forall i | 0 <= i < |cs + ds| - 1 ensures t'[(cs + ds)[i]] == (cs + ds)[i + 1] {
        if i < n - 1 { assert cs[i] != cs[n - 1]; }
      }
    } else {
      assert cs + ds == ds;
    }
  }

  lemma FirstIn(t: Table, ds: seq<nat>)
    requires FileOk(t, ds) && ds != []
    ensures InTable(t, ds[0])
  {
  }

  /** Appends the chain `ds`, which starts at `c`, to the file. */
  method ChainAdd(v: Fat, i: Inode, limit: nat, c: nat, nr: nat, ghost cs: seq<nat>, ghost ds: seq<nat>)
    returns (ok: bool)
    requires v.Valid() && i.CacheOk(v.Ents(), limit) && i.start == First(cs)
    requires FileOk(v.Ents(), cs) && ds != [] && ds[0] == c && FileOk(v.Ents(), ds) && Apart(cs, ds)
    modifies v.table, i
    ensures v.Valid() && i.CacheOk(v.Ents(), limit) && (cs != [] ==> cs[|cs| - 1] < v.max)
    ensures ok <==> |cs| <= limit + 1
    ensures ok ==> v.Ents() == Hung(old(v.Ents()), cs, c) && i.start == First(cs + ds) && FileOk(v.Ents(), cs + ds)
    ensures ok ==> i.logstart == (if cs == [] then c else old(i.logstart)) && i.blocks == old(i.blocks) + nr
    ensures old(i.blocks) == |cs| ==> i.validId == old(i.validId)
    ensures !ok ==> v.Ents() == old(v.Ents()) && i.start == old(i.start)
    ensures !ok ==> i.logstart == old(i.logstart) && i.blocks == old(i.blocks)
  {
    hide Entries, Covers, Bad, Cursor.Positioned, Offs, Width, FatBytes.Get, RunsOk, Chain, Walk;
    HungChain(v.Ents(), cs, ds);
    var newFclus := 0;
    if i.start != 0 {
      ChainShort(v.Ents(), cs);
      WalkChain(v.Ents(), limit, cs[0], cs, FAT_ENT_EOF);
      var st, fclus, dclus := i.GetCluster(v, limit, FAT_ENT_EOF);
      if st == Eio {
        return false;
      }
      newFclus := fclus + 1;
      var fatent := v.NewCursor();
      var inside, next := fatent.Read(dclus);
      if !inside {
        return false;
      }
      FirstIn(v.Ents(), ds);
      ClusterValue(v.kind, v.max, c);
      RunsKept(v.Ents(), Hung(v.Ents(), cs, c), limit, i.start, i.lru);
      fatent.Put(c);
    } else {
      NoFile(v.Ents(), cs);
      NoRuns(v.Ents(), limit, i.lru);
      i.start, i.logstart := c, c;
    }
    if newFclus != i.blocks {
      i.Invalidate();
      EmptyRuns(v.Ents(), limit, i.start);
    }
    i.blocks := i.blocks + nr;
    EmptyRuns(v.Ents(), limit, i.start);
    ok := true;
  }

  lemma EmptyRuns(t: Table, limit: nat, start: nat)
    ensures RunsOk(t, limit, start, []) && forall b :: EndBy([], b)
  {
  }

  lemma NoFile(t: Table, cs: seq<nat>)
    requires FileOk(t, cs) && First(cs) == 0
    ensures cs == []
  {
  }

  lemma ChainShort(t: Table, cs: seq<nat>)
    requires SizeOk(t) && FileOk(t, cs) && First(cs) != 0
    ensures cs != [] && |cs| <= FAT_ENT_EOF && Chain(t, cs[0], cs)
  {
    ChainDistinct(t, cs[0], cs);
    DistinctShort(cs, |t|);
  }

  lemma {:induction false} DistinctShort(cs: seq<nat>, n: nat)
    requires Distinct(cs) && forall i :: 0 <= i < |cs| ==> cs[i] < n
    ensures |cs| <= n
  {
    var s := set e | e in cs;
    SizeOfDistinct(cs, s);
    Bounded(s, n);
  }

  lemma {:induction false} Bounded(s: set<nat>, n: nat)
    requires forall e :: e in s ==> e < n
    ensures |s| <= n
    decreases n
  {
    if n > 0 {
      Bounded(s - {n - 1}, n - 1);
    } else {
      assert s == {};
    }
  }

  lemma TakenChain(t: Table, t': Table, cs: seq<nat>, c: nat)
    requires SizeOk(t) && FileOk(t, cs) && Linked(t, t', [c]) && InTable(t, c) && t[c] == FAT_ENT_FREE
    ensures |t'| == |t| && FileOk(t', cs) && FileOk(t', [c]) && Apart(cs, [c])
    ensures (forall e: nat :: Leads(t, e) ==> t'[e] == t[e]) && (forall e: nat :: Leads(t', e) ==> t[e] == t'[e])
  {
    forall e | e in cs ensures e != c && InTable(t, e) && t'[e] == t[e] {
      ChainUsed(t, cs, e);
    }
    if cs != [] {
      ChainKept(t, t', cs[0], cs);
    }
    LinkedChain(t, t', [c]);
  }

  /** Taking a free cluster and hanging it behind the file. */
  lemma AppendStep(t: Table, t1: Table, cs: seq<nat>, c: nat)
    requires SizeOk(t) && FileOk(t, cs) && Linked(t, t1, [c]) && InTable(t, c) && t[c] == FAT_ENT_FREE
    requires (cs != [] ==> cs[|cs| - 1] < |t1|) && FileOk(Hung(t1, cs, c), cs + [c])
    ensures Step(t, Hung(t1, cs, c), cs, cs + [c])
  {
    var t2 := Hung(t1, cs, c);
    forall e | 0 <= e < |t| && e !in cs && e !in cs + [c] ensures t2[e] == t[e] {
      assert e !in [c];
      if cs != [] { assert cs[|cs| - 1] in cs; }
    }
  }

  lemma HungFree(t: Table, cs: seq<nat>, c: nat)
    requires FileOk(t, cs) && c != FAT_ENT_FREE
    ensures (cs != [] ==> cs[|cs| - 1] < |t|) && FreeSet(Hung(t, cs, c)) == FreeSet(t)
  {
    if cs != [] {
      ChainUsed(t, cs, cs[|cs| - 1]);
    }
  }

  lemma StepNothing(t: Table, cs: seq<nat>)
    requires FileOk(t, cs)
    ensures Step(t, t, cs, cs)
  {
  }

  lemma OneFree(t: Table, clusters: seq<nat>)
    requires |clusters| == 1 && forall e :: e in clusters ==> InTable(t, e) && t[e] == FAT_ENT_FREE
    ensures clusters == [clusters[0]] && InTable(t, clusters[0]) && t[clusters[0]] == FAT_ENT_FREE
  {
  }

  /** Adds one cluster to the file; if that fails, the cluster is given back. */
  method AddCluster(v: Fat, i: Inode, limit: nat, ghost cs: seq<nat>) returns (ok: bool, ghost cs': seq<nat>)
    requires v.Valid() && i.CacheOk(v.Ents(), limit) && i.start == First(cs) && FileOk(v.Ents(), cs)
    modifies v, v.table, i
    ensures v.Valid() && i.CacheOk(v.Ents(), limit) && i.start == First(cs') && Step(old(v.Ents()), v.Ents(), cs, cs')
    ensures ok ==> |cs'| == |cs| + 1 && cs <= cs' && |cs| <= limit + 1 && i.blocks == old(i.blocks) + 1
    ensures !ok ==> cs' == cs && v.Ents() == old(v.Ents()) && i.blocks == old(i.blocks)
    ensures ok <==> |cs| <= limit + 1 && !old(v.Refused(1)) && old(FreeSet(v.Ents())) != {}
    ensures ok ==> cs' == cs + [v.prevFree]
    ensures v.prevFree == if old(v.Refused(1)) || old(FreeSet(v.Ents())) == {} then old(v.prevFree)
                          else NextFree(old(FreeSet(v.Ents())), old(v.prevFree), v.max)
    ensures old(v.Accurate()) ==> v.Accurate()
  {
    hide Entries, Covers, Bad, Cursor.Positioned, Offs, Width, FatBytes.Get, FreeSet, FileOk, Linked, Step, Apart,
         RunsOk, Leads, Hung, FreeSeen, Distinct, InTable;
    ghost var t := v.Ents();
    cs' := cs;
    StepNothing(t, cs);
    var clusters;
    ok, clusters := v.AllocClusters(1);
    if !ok {
      return;
    }
    OneFree(t, clusters);
    FirstSeen(t, old(v.prevFree), clusters);
    var c := clusters[0];
    TakenChain(t, v.Ents(), cs, c);
    RunsKept(t, v.Ents(), limit, i.start, i.lru);
    ghost var t1 := v.Ents();
    ok := ChainAdd(v, i, limit, c, 1, cs, [c]);
    if ok {
      AppendStep(t, t1, cs, c);
      NotFree(t, c);
      HungFree(t1, cs, c);
      cs' := cs + [c];
    } else {
      UndoTake(t, t1, c);
      RunsKept(t1, t, limit, i.start, i.lru);
      var freed := v.FreeClusters(c);
    }
  }

  lemma FirstSeen(t: Table, prevFree: nat, clusters: seq<nat>)
    requires |clusters| == 1 && FAT_START_ENT <= Start(prevFree, |t|) < |t|
    requires clusters <= FreeSeen(t, Start(prevFree, |t|), |t| - FAT_START_ENT)
    ensures clusters[0] == NextFree(FreeSet(t), prevFree, |t|)
  {
    hide SeekFree, FreeSeen, FreeSet;
    SeekSeen(t, Start(prevFree, |t|), |t| - FAT_START_ENT);
  }

  lemma NotFree(t: Table, c: nat)
    requires InTable(t, c)
    ensures c != FAT_ENT_FREE
  {
  }

  lemma UndoTake(t: Table, t1: Table, c: nat)
    requires SizeOk(t) && Linked(t, t1, [c]) && InTable(t, c) && t[c] == FAT_ENT_FREE
    ensures Release(t1, c) == (t, true)
  {
    LinkedChain(t, t1, [c]);
    ReleaseChain(t1, c, [c]);
    LinkedUndone(t, t1, [c]);
  }

  // ---- truncating -----------------------------------------------------------------------------------------------

  /** Cutting a chain after `k` clusters. */
  lemma CutChain(t: Table, cs: seq<nat>, k: nat)
    requires SizeOk(t) && FileOk(t, cs) && 0 < k < |cs|
    ensures InTable(t, cs[k - 1]) && t[cs[k - 1]] == cs[k] && InTable(t, cs[k])
    ensures var t1 := t[cs[k - 1] := FAT_ENT_EOF];
            var t' := Cleared(t1, cs[k..]);
            && Release(t1, cs[k]) == (t', true) && Step(t, t', cs, cs[..k])
            && (forall j :: 0 <= j < k - 1 ==> cs[j] < |t| && t'[cs[j]] == t[cs[j]])
  {
    var t1, ds := t[cs[k - 1] := FAT_ENT_EOF], cs[k..];
    ChainDistinct(t, cs[0], cs);
    ChainTail(t, cs[0], cs, k);
    ChainKept(t, t1, cs[k], ds);
    ReleaseChain(t1, cs[k], ds);
    CutStep(t, cs, k);
  }

  lemma CutStep(t: Table, cs: seq<nat>, k: nat)
    requires SizeOk(t) && FileOk(t, cs) && 0 < k < |cs| && Distinct(cs) && InTable(t, cs[k - 1])
    ensures var t' := Cleared(t[cs[k - 1] := FAT_ENT_EOF], cs[k..]);
            Step(t, t', cs, cs[..k]) && forall j :: 0 <= j < k - 1 ==> cs[j] < |t| && t'[cs[j]] == t[cs[j]]
  {
    var t1, ds, hs := t[cs[k - 1] := FAT_ENT_EOF], cs[k..], cs[..k];
    var t' := Cleared(t1, ds);
    assert cs == hs + ds;
    forall j | 0 <= j < k ensures cs[j] !in ds && cs[j] in cs && t'[cs[j]] == t1[cs[j]] {
    }
    assert Chain(t', hs[0], hs);
    forall e | e in hs ensures e in cs {
    }
    assert cs[k - 1] in cs;
  }

  lemma CutAll(t: Table, cs: seq<nat>)
    requires SizeOk(t) && FileOk(t, cs) && cs != []
    ensures Release(t, cs[0]) == (Cleared(t, cs), true) && Step(t, Cleared(t, cs), cs, [])
  {
    ReleaseChain(t, cs[0], cs);
  }

  /** What is left of a file that is cut to `skip` clusters. */
  function Kept(cs: seq<nat>, limit: nat, skip: nat): seq<nat> {
    if skip >= |cs| || skip > limit + 2 then cs else cs[..skip]
  }

  lemma EofFree(t: Table, c: nat)
    requires InTable(t, c) && t[c] != FAT_ENT_FREE
    ensures FreeSet(t[c := FAT_ENT_EOF]) == FreeSet(t)
  {
  }

  datatype Cutting = Failed | Nothing | FreeFrom(c: nat)

  /** With the end mark set, freeing the rest is a step of the file, and the runs up to the mark stay valid. */
  lemma Ended(t: Table, limit: nat, cs: seq<nat>, k: nat, rs: seq<Run>)
    requires SizeOk(t) && FileOk(t, cs) && 0 < k < |cs| && RunsOk(t, limit, cs[0], rs) && EndBy(rs, k - 1)
    ensures cs[k - 1] < |t| && t[cs[k - 1]] == cs[k]
    ensures var t1 := t[cs[k - 1] := FAT_ENT_EOF];
            && FreeSet(t1) == FreeSet(t) && SizeOk(t1) && Release(t1, cs[k]).1
            && Step(t, Release(t1, cs[k]).0, cs, cs[..k]) && RunsOk(Release(t1, cs[k]).0, limit, cs[0], rs)
  {
    hide FreeSet, RunsOk, Chain, Release, EndBy, Step, Cleared;
    CutChain(t, cs, k);
    ChainAt(t, cs, k - 1);
    EofFree(t, cs[k - 1]);
    var t' := Cleared(t[cs[k - 1] := FAT_ENT_EOF], cs[k..]);
    StepSize(t, t', cs, cs[..k]);
    RunsBefore(t, t', limit, cs, rs, k - 1);
  }

  lemma StepSize(t: Table, t': Table, cs: seq<nat>, cs': seq<nat>)
    requires Step(t, t', cs, cs')
    ensures |t'| == |t|
  {
  }

  /** Finds the last cluster to keep and marks it as the end of the chain. */
  method MarkEnd(v: Fat, i: Inode, limit: nat, skip: nat, ghost cs: seq<nat>) returns (r: Cutting)
    requires v.Valid() && i.CacheOk(v.Ents(), limit) && i.lru == [] && i.start == First(cs) && i.start != 0
    requires FileOk(v.Ents(), cs) && skip > 0
    modifies v.table, i`lru, i`nrCaches
    ensures v.Valid() && FreeSet(v.Ents()) == FreeSet(old(v.Ents()))
    ensures r == (if skip >= |cs| then if |cs| <= limit + 1 || skip <= limit + 2 then Nothing else Failed
                  else if skip > limit + 2 then Failed else FreeFrom(cs[skip]))
    ensures !r.FreeFrom? ==> v.Ents() == old(v.Ents()) && i.CacheOk(v.Ents(), limit)
    ensures r.FreeFrom? ==> Release(v.Ents(), r.c).1 && Step(old(v.Ents()), Release(v.Ents(), r.c).0, cs, cs[..skip])
    ensures r.FreeFrom? ==> i.CacheOk(Release(v.Ents(), r.c).0, limit)
  {
    hide Entries, Covers, Bad, Cursor.Positioned, Offs, Width, FatBytes.Get, FreeSet, Step, RunsOk, Walk, Chain,
         Cleared, Release, EndBy, FileOk, InTable;
    ChainShort(v.Ents(), cs);
    EmptyRuns(v.Ents(), limit, i.start);
    WalkChain(v.Ents(), limit, i.start, cs, skip - 1);
    var st, fclus, dclus := i.GetCluster(v, limit, skip - 1);
    if st == Eio {
      return Failed;
    }
    if st == Eof {
      return Nothing;
    }
    ChainAt(v.Ents(), cs, skip - 1);
    var fatent := v.NewCursor();
    var inside, ret := fatent.Read(dclus);
    EntryAt(v.kind, v.table[..], v.max, dclus);
    ClusterValue(v.kind, v.max, 0);
    if ret == FAT_ENT_EOF {
      return Nothing;
    }
    Ended(v.Ents(), limit, cs, skip, i.lru);
    fatent.Put(FAT_ENT_EOF);
    r := FreeFrom(ret);
  }

  /** Frees all clusters after the first `skip`. */
  method Truncate(v: Fat, i: Inode, limit: nat, skip: nat, ghost cs: seq<nat>) returns (ok: bool)
    requires v.Valid() && i.CacheOk(v.Ents(), limit) && i.start == First(cs) && FileOk(v.Ents(), cs)
    modifies v`freeClusters, v.table, i
    ensures v.Valid() && i.CacheOk(v.Ents(), limit) && i.start == First(Kept(cs, limit, skip))
    ensures Step(old(v.Ents()), v.Ents(), cs, Kept(cs, limit, skip))
    ensures Step(old(v.Ents()), v.Ents(), cs, if skip >= |cs| || skip > limit + 2 then cs else cs[..skip])
    ensures ok <==> cs == [] || skip <= limit + 2 || |cs| <= limit + 1
    ensures i.blocks == if skip < |cs| && ok then skip else old(i.blocks)
    ensures old(v.Accurate()) ==> v.Accurate()
  {
    hide Entries, Covers, Bad, Cursor.Positioned, Offs, Width, FatBytes.Get, FreeSet, Step, RunsOk, Walk, Chain,
         Cleared, Release, EndBy, FileOk, InTable;
    StepNothing(v.Ents(), cs);
    if i.start == 0 {
      NoFile(v.Ents(), cs);
      return true;
    }
    i.Invalidate();
    ChainShort(v.Ents(), cs);
    EmptyRuns(v.Ents(), limit, i.start);
    var freeStart := i.start;
    if skip == 0 {
      i.start, i.logstart := 0, 0;
      CutAll(v.Ents(), cs);
      EmptyRuns(Release(v.Ents(), freeStart).0, limit, 0);
    } else {
      var r := MarkEnd(v, i, limit, skip, cs);
      match r {
        case Failed => return false;
        case Nothing => return true;
        case FreeFrom(c) => freeStart := c;
      }
    }
    i.blocks := skip;
    ok := v.FreeClusters(freeStart);
  }

  lemma ChainAt(t: Table, cs: seq<nat>, k: nat)
    requires SizeOk(t) && FileOk(t, cs) && k < |cs|
    ensures InTable(t, cs[k]) && t[cs[k]] != FAT_ENT_FREE && (t[cs[k]] == FAT_ENT_EOF <==> k == |cs| - 1)
  {
    if k < |cs| - 1 {
      assert InTable(t, cs[k + 1]);
    }
  }
}
