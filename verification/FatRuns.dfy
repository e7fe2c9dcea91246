/** Whole runs of a FAT volume: every file keeps its own chain, and no cluster is lost. */
module FatRuns {
  import opened FatBytes
  import opened FatTable
  import opened FatWalk
  import opened FatCache
  import opened FatAlloc
  import opened FatVolume

  type Chains = map<Inode, seq<nat>>

  ghost predicate InodeOk(t: Table, limit: nat, i: Inode, cs: seq<nat>)
    reads i
  {
    i.start == First(cs) && i.blocks == |cs| && i.CacheOk(t, limit)
  }

  /** The invariant of a volume whose files have the given chains. */
  ghost predicate VolOk(v: Fat, limit: nat, chains: Chains)
    reads v, v.table, chains.Keys
  {
    && v.Valid() && v.Accurate() && Owns(v.Ents(), chains)
    && forall i :: i in chains ==> InodeOk(v.Ents(), limit, i, chains[i])
  }

  /** The runs cached for other files stay valid when one file changes. */
  lemma OtherRuns(t: Table, t': Table, limit: nat, chains: Chains, i: Inode, cs': seq<nat>, j: Inode, rs: seq<Run>)
    requires SizeOk(t) && Owns(t, chains) && i in chains && j in chains && i != j && Step(t, t', chains[i], cs')
    requires RunsOk(t, limit, First(chains[j]), rs)
    ensures RunsOk(t', limit, First(chains[j]), rs)
  {
    hide RunsOk, FileOk, Chain;
    assert Apart(chains[i], chains[j]);
    StepOthers(t, t', chains[i], cs', chains[j]);
    RunsElsewhere(t, t', limit, chains[j], rs);
  }

  // ---- the volume as its users see it ----------------------------------------------------------------------

  /** The chains of the files, the free clusters, and where the last allocation ended. */
  datatype Vol = Vol(max: nat, free: set<nat>, prev: nat, chains: Chains)

  datatype Op = AppendTo(file: nat) | CutTo(file: nat, clusters: nat) | LookUp(file: nat, cluster: nat)

  datatype Answer = Appended(ok: bool) | Truncated(ok: bool) | Found(cluster: Walked) | NoCluster

  ghost function Members(cs: seq<nat>): set<nat> {
    set e | e in cs
  }

  ghost function View(v: Fat, chains: Chains): Vol
    requires v.Valid()
    reads v, v.table
  {
    Vol(|v.Ents()|, FreeSet(v.Ents()), v.prevFree, chains)
  }

  /** The file gets the next free cluster, unless there is none or the file is too long already. */
  ghost function AppendEffect(limit: nat, s: Vol, i: Inode): (Vol, Answer)
    requires i in s.chains
  {
    var c := NextFree(s.free, s.prev, s.max);
    if s.free == {} then (s, Appended(false))
    else if |s.chains[i]| > limit + 1 then (s.(prev := c), Appended(false))
    else (Vol(s.max, s.free - {c}, c, s.chains[i := s.chains[i] + [c]]), Appended(true))
  }

  /** The clusters behind the first `skip` become free. */
  ghost function CutEffect(limit: nat, s: Vol, i: Inode, skip: nat): (Vol, Answer)
    requires i in s.chains
  {
    var cs := s.chains[i];
    var kept := Kept(cs, limit, skip);
    (s.(free := s.free + Members(cs[|kept|..]), chains := s.chains[i := kept]),
     Truncated(cs == [] || skip <= limit + 2 || |cs| <= limit + 1))
  }

  /** The cluster is read off the chain. */
  ghost function FindAnswer(limit: nat, s: Vol, i: Inode, target: nat): Answer
    requires i in s.chains
  {
    if s.chains[i] == [] then NoCluster else Found(Outcome(s.chains[i], limit, target))
  }

  ghost function Effect(limit: nat, s: Vol, i: Inode, op: Op): (Vol, Answer)
    requires i in s.chains
  {
    match op
    case AppendTo(_) => AppendEffect(limit, s, i)
    case CutTo(_, skip) => CutEffect(limit, s, i, skip)
    case LookUp(_, target) => (s, FindAnswer(limit, s, i, target))
  }

  ghost predicate Names(files: seq<Inode>, op: Op, chains: Chains) {
    op.file < |files| && files[op.file] in chains
  }

  /** What a sequence of operations does and answers. */
  ghost function Effects(limit: nat, files: seq<Inode>, s: Vol, ops: seq<Op>): (r: (Vol, seq<Answer>))
    requires forall op :: op in ops ==> Names(files, op, s.chains)
    ensures r.0.chains.Keys == s.chains.Keys && |r.1| == |ops|
  {
    if ops == [] then (s, [])
    else
      var n := |ops| - 1;
      var (before, answers) := Effects(limit, files, s, ops[..n]);
      assert Names(files, ops[n], s.chains);
      var (after, answer) := Effect(limit, before, files[ops[n].file], ops[n]);
      (after, answers + [answer])
  }

  /** Whatever is done to the other files, a file answers as before. */
  lemma {:induction false} OthersUntouched(limit: nat, files: seq<Inode>, s: Vol, ops: seq<Op>, i: Inode, target: nat)
    requires forall op :: op in ops ==> Names(files, op, s.chains)
    requires i in s.chains
    requires forall op :: op in ops ==> op.LookUp? || (Names(files, op, s.chains) && files[op.file] != i)
    ensures FindAnswer(limit, Effects(limit, files, s, ops).0, i, target) == FindAnswer(limit, s, i, target)
    decreases |ops|
  {
    if ops != [] {
      var n := |ops| - 1;
      assert ops[n] in ops && Names(files, ops[n], s.chains);
      OthersUntouched(limit, files, s, ops[..n], i, target);
    }
  }

  // ---- the operations --------------------------------------------------------------------------------------

  /** One file's chain has changed: the invariant holds again. */
  lemma VolStep(v: Fat, t: Table, limit: nat, chains: Chains, i: Inode, cs': seq<nat>)
    requires v.Valid() && SizeOk(t) && Owns(t, chains) && i in chains && Step(t, v.Ents(), chains[i], cs')
    requires v.Accurate() && InodeOk(v.Ents(), limit, i, cs')
    requires forall j :: j in chains && j != i ==> InodeOk(t, limit, j, chains[j])
    ensures VolOk(v, limit, chains[i := cs']) && Lost(v.Ents(), chains[i := cs']) == Lost(t, chains)
  {
    hide Step, FileOk, RunsOk, Apart, Lost, FreeSet;
    StepOwns(t, v.Ents(), chains, i, cs');
    StepLost(t, v.Ents(), chains, i, cs');
    forall j | j in chains && j != i ensures InodeOk(v.Ents(), limit, j, chains[j]) {
      OtherRuns(t, v.Ents(), limit, chains, i, cs', j, j.lru);
    }
  }

  /** Which clusters are free after one file's chain has changed. */
  lemma StepFree(t: Table, t': Table, cs: seq<nat>, cs': seq<nat>)
    requires SizeOk(t) && FileOk(t, cs) && Step(t, t', cs, cs')
    ensures |t'| == |t| && FreeSet(t') == FreeSet(t) - Members(cs') + (Members(cs) - Members(cs'))
  {
    hide FileOk;
    forall e | e in cs ensures InTable(t, e) && t[e] != FAT_ENT_FREE {
      ChainUsed(t, cs, e);
    }
    forall e | e in cs' ensures InTable(t', e) && t'[e] != FAT_ENT_FREE {
      ChainUsed(t', cs', e);
    }
  }

  lemma UsedNotFree(t: Table, cs: seq<nat>)
    requires SizeOk(t) && FileOk(t, cs)
    ensures Members(cs) !! FreeSet(t)
  {
    hide FileOk;
    forall e | e in cs ensures e !in FreeSet(t) {
      ChainUsed(t, cs, e);
    }
  }

  lemma AppendFree(t: Table, t': Table, cs: seq<nat>, c: nat)
    requires SizeOk(t) && FileOk(t, cs) && Step(t, t', cs, cs + [c])
    ensures |t'| == |t| && FreeSet(t') == FreeSet(t) - {c}
  {
    hide FileOk, Step, FreeSet;
    StepFree(t, t', cs, cs + [c]);
    UsedNotFree(t, cs);
    assert Members(cs + [c]) == Members(cs) + {c};
  }

  lemma CutFree(t: Table, t': Table, cs: seq<nat>, k: nat)
    requires SizeOk(t) && FileOk(t, cs) && k <= |cs| && Step(t, t', cs, cs[..k])
    ensures |t'| == |t| && FreeSet(t') == FreeSet(t) + Members(cs[k..])
  {
    hide Step, FreeSet;
    StepFree(t, t', cs, cs[..k]);
    assert cs == cs[..k] + cs[k..];
    if cs != [] {
      ChainDistinct(t, cs[0], cs);
    }
    UsedNotFree(t, cs);
    assert Members(cs) == Members(cs[..k]) + Members(cs[k..]);
    assert Members(cs[..k]) !! Members(cs[k..]);
  }

  /** Appends a cluster to a file of the volume. */
  method Append(v: Fat, limit: nat, i: Inode, ghost chains: Chains) returns (ok: bool, ghost chains': Chains)
    requires VolOk(v, limit, chains) && i in chains
    modifies v, v.table, i
    ensures VolOk(v, limit, chains') && Lost(v.Ents(), chains') == Lost(old(v.Ents()), chains)
    ensures (View(v, chains'), Appended(ok)) == AppendEffect(limit, old(View(v, chains)), i)
    ensures ok <==> |chains[i]| <= limit + 1 && FreeSet(old(v.Ents())) != {}
  {
    hide Step, FileOk, RunsOk, Apart, Lost, FreeSet;
    ghost var t, cs' := v.Ents(), [];
    assert InodeOk(t, limit, i, chains[i]);
    ok, cs' := AddCluster(v, i, limit, chains[i]);
    chains' := chains[i := cs'];
    VolStep(v, t, limit, chains, i, cs');
    if ok {
      AppendFree(t, v.Ents(), chains[i], v.prevFree);
    } else {
      assert chains' == chains;
    }
  }

  /** Truncates a file of the volume to `skip` clusters. */
  method Cut(v: Fat, limit: nat, i: Inode, skip: nat, ghost chains: Chains) returns (ok: bool, ghost chains': Chains)
    requires VolOk(v, limit, chains) && i in chains
    modifies v, v.table, i
    ensures chains' == chains[i := Kept(chains[i], limit, skip)]
    ensures var cs := chains[i]; chains' == chains[i := if skip >= |cs| || skip > limit + 2 then cs else cs[..skip]]
    ensures VolOk(v, limit, chains') && Lost(v.Ents(), chains') == Lost(old(v.Ents()), chains)
    ensures (View(v, chains'), Truncated(ok)) == CutEffect(limit, old(View(v, chains)), i, skip)
  {
    hide Step, FileOk, RunsOk, Apart, Lost, FreeSet;
    ghost var t, cs' := v.Ents(), Kept(chains[i], limit, skip);
    assert InodeOk(t, limit, i, chains[i]);
    ok := Truncate(v, i, limit, skip, chains[i]);
    chains' := chains[i := cs'];
    VolStep(v, t, limit, chains, i, cs');
    assert cs' == chains[i][..|cs'|];
    CutFree(t, v.Ents(), chains[i], |cs'|);
  }

  /** Looks up a cluster of a file of the volume. */
  method Find(v: Fat, limit: nat, i: Inode, target: nat, ghost chains: Chains) returns (r: Answer)
    requires VolOk(v, limit, chains) && i in chains
    modifies i
    ensures VolOk(v, limit, chains) && r == FindAnswer(limit, View(v, chains), i, target)
    ensures if i.start == 0 then r == NoCluster else r == Found(Walk(v.Ents(), limit, 0, i.start, target))
  {
    hide FileOk, RunsOk, Apart, FreeSet, Walk;
    assert InodeOk(v.Ents(), limit, i, chains[i]);
    if i.start == 0 {
      NoFile(v.Ents(), chains[i]);
      return NoCluster;
    }
    ChainShort(v.Ents(), chains[i]);
    WalkChain(v.Ents(), limit, i.start, chains[i], target);
    var st, fclus, dclus := i.GetCluster(v, limit, target);
    r := Found(Walked(st, fclus, dclus));
    forall j | j in chains ensures InodeOk(v.Ents(), limit, j, chains[j]) {
      assert j != i ==> old(InodeOk(v.Ents(), limit, j, chains[j]));
    }
  }

  lemma VolValid(v: Fat, limit: nat, chains: Chains)
    requires VolOk(v, limit, chains)
    ensures v.Valid()
  {
  }

  /** Performs one operation. */
  method RunOp(v: Fat, limit: nat, i: Inode, op: Op, ghost chains: Chains) returns (r: Answer, ghost chains': Chains)
    requires VolOk(v, limit, chains) && i in chains
    modifies v, v.table, i
    ensures v.Valid() && VolOk(v, limit, chains') && Lost(v.Ents(), chains') == Lost(old(v.Ents()), chains)
    ensures (View(v, chains'), r) == Effect(limit, old(View(v, chains)), i, op)
  {
    hide VolOk, Lost, AppendEffect, CutEffect, FindAnswer;
    match op {
      case AppendTo(_) =>
        var ok;
        ok, chains' := Append(v, limit, i, chains);
        r := Appended(ok);
      case CutTo(_, skip) =>
        var ok;
        ok, chains' := Cut(v, limit, i, skip, chains);
        r := Truncated(ok);
      case LookUp(_, target) =>
        r := Find(v, limit, i, target, chains);
        chains' := chains;
    }
    VolValid(v, limit, chains');
  }

  /** Runs any sequence of operations on the files of a volume. */
  method RunOps(v: Fat, limit: nat, files: seq<Inode>, ops: seq<Op>, ghost chains: Chains)
    returns (answers: seq<Answer>, ghost chains': Chains)
    requires VolOk(v, limit, chains) && chains.Keys == (set i | i in files)
    requires forall op :: op in ops ==> op.file < |files|
    modifies v, v.table, files
    ensures VolOk(v, limit, chains') && Lost(v.Ents(), chains') == Lost(old(v.Ents()), chains)
    ensures forall op :: op in ops ==> Names(files, op, chains)
    ensures (View(v, chains'), answers) == Effects(limit, files, old(View(v, chains)), ops)
  {
    hide VolOk, Lost, Effect, FreeSet;
    VolValid(v, limit, chains);
    answers, chains' := [], chains;
    forall op | op in ops ensures Names(files, op, chains) {
      assert files[op.file] in chains.Keys;
    }
    for k := 0 to |ops|
      invariant v.Valid() && VolOk(v, limit, chains') && Lost(v.Ents(), chains') == Lost(old(v.Ents()), chains)
      invariant forall op :: op in ops[..k] ==> op in ops
      invariant (View(v, chains'), answers) == Effects(limit, files, old(View(v, chains)), ops[..k])
    {
      var op := ops[k];
      assert op in ops;
      var i := files[op.file];
      assert ops[..k + 1][..k] == ops[..k];
      var answer;
      answer, chains' := RunOp(v, limit, i, op, chains');
      answers := answers + [answer];
    }
    assert ops[..|ops|] == ops;
  }
}
