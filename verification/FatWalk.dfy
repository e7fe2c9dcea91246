/** Walking a cluster chain without a cache, and when a walk stays the same in a changed table. */
module FatWalk {
  import opened FatBytes
  import opened FatTable

  datatype Status = Done | Eof | Eio

  /** How far a walk came: the number of the cluster in the file, and the cluster on disk. */
  datatype Walked = Walked(st: Status, fclus: nat, dclus: nat)

  /** The walk from cluster `d`, number `f` of the file, to number `target`. */
  function Walk(t: Table, limit: nat, f: nat, d: nat, target: nat): Walked
    decreases target - f
  {
    if f >= target then Walked(Done, f, d)
    else if f > limit || !InTable(t, d) || t[d] == FAT_ENT_FREE then Walked(Eio, f, d)
    else if t[d] == FAT_ENT_EOF then Walked(Eof, f, d)
    else Walk(t, limit, f + 1, t[d], target)
  }

  /** Cluster number `i` of the file that starts at `start` is `d`. */
  predicate Reaches(t: Table, limit: nat, start: nat, i: nat, d: nat) {
    Walk(t, limit, 0, start, i) == Walked(Done, i, d)
  }

  /** An entry that leads on. */
  predicate Leads(t: Table, d: nat) {
    InTable(t, d) && t[d] != FAT_ENT_FREE && t[d] != FAT_ENT_EOF
  }

  /** A walk may be resumed from any cluster it passes. */
  lemma {:induction false} Resume(t: Table, limit: nat, f: nat, e: nat, i: nat, d: nat, target: nat)
    requires f <= i <= target && Walk(t, limit, f, e, i) == Walked(Done, i, d)
    ensures Walk(t, limit, f, e, target) == Walk(t, limit, i, d, target)
    decreases i - f
  {
    if f < i {
      Resume(t, limit, f + 1, t[e], i, d, target);
    }
  }

  lemma StepOn(t: Table, limit: nat, start: nat, i: nat, d: nat)
    requires Reaches(t, limit, start, i, d) && i <= limit && Leads(t, d)
    ensures Reaches(t, limit, start, i + 1, t[d])
  {
    Resume(t, limit, 0, start, i, d, i + 1);
    assert Walk(t, limit, i + 1, t[d], i + 1) == Walked(Done, i + 1, t[d]);
  }

  lemma {:induction false} PrevFrom(t: Table, limit: nat, f: nat, e: nat, i: nat, d: nat) returns (p: nat)
    requires f < i && Walk(t, limit, f, e, i) == Walked(Done, i, d)
    ensures Walk(t, limit, f, e, i - 1) == Walked(Done, i - 1, p) && Leads(t, p) && t[p] == d && i - 1 <= limit
    decreases i - f
  {
    if f + 1 == i {
      p := e;
      assert Walk(t, limit, i, t[e], i) == Walked(Done, i, t[e]);
    } else {
      p := PrevFrom(t, limit, f + 1, t[e], i, d);
    }
  }

  /** The cluster before. */
  lemma Prev(t: Table, limit: nat, start: nat, i: nat, d: nat) returns (p: nat)
    requires i > 0 && Reaches(t, limit, start, i, d)
    ensures Reaches(t, limit, start, i - 1, p) && Leads(t, p) && t[p] == d && i - 1 <= limit
  {
    p := PrevFrom(t, limit, 0, start, i, d);
  }

  // ---- changed tables -----------------------------------------------------------------------------------

  /** Allocating and appending change only free entries and ends of chains, which no walk passes. */
  lemma {:induction false} ReachesKept(t: Table, t': Table, limit: nat, start: nat, i: nat, d: nat)
    requires Reaches(t, limit, start, i, d) && |t'| == |t| && forall e: nat :: Leads(t, e) ==> t'[e] == t[e]
    ensures Reaches(t', limit, start, i, d)
    decreases i
  {
    if i > 0 {
      var p := Prev(t, limit, start, i, d);
      ReachesKept(t, t', limit, start, i - 1, p);
      StepOn(t', limit, start, i - 1, p);
    }
  }

  /** A walk along a chain. */
  lemma {:induction false} ReachesChain(t: Table, limit: nat, start: nat, cs: seq<nat>, i: nat, d: nat)
    requires SizeOk(t) && Chain(t, start, cs) && Reaches(t, limit, start, i, d)
    ensures i < |cs| && d == cs[i]
    decreases i
  {
    if i > 0 {
      var p := Prev(t, limit, start, i, d);
      ReachesChain(t, limit, start, cs, i - 1, p);
    }
  }

  /** Changing other clusters does not matter. */
  lemma {:induction false} ReachesBefore(t: Table, t': Table, limit: nat, start: nat, cs: seq<nat>, i: nat, d: nat)
    requires SizeOk(t) && Chain(t, start, cs) && Reaches(t, limit, start, i, d) && |t'| == |t|
    requires forall j :: 0 <= j < i && j < |cs| ==> InTable(t, cs[j]) ==> t'[cs[j]] == t[cs[j]]
    ensures Reaches(t', limit, start, i, d)
    decreases i
  {
    if i > 0 {
      var p := Prev(t, limit, start, i, d);
      ReachesChain(t, limit, start, cs, i - 1, p);
      ReachesBefore(t, t', limit, start, cs, i - 1, p);
      StepOn(t', limit, start, i - 1, p);
    }
  }

  /** The outcome of a walk to `target` along the chain `cs`. */
  function Outcome(cs: seq<nat>, limit: nat, target: nat): Walked
    requires cs != []
  {
    if target <= limit + 1 && target < |cs| then Walked(Done, target, cs[target])
    else if limit + 1 < |cs| then Walked(Eio, limit + 1, cs[limit + 1])
    else Walked(Eof, |cs| - 1, cs[|cs| - 1])
  }

  lemma {:induction false} WalkFrom(t: Table, limit: nat, f: nat, cs: seq<nat>, target: nat)
    requires SizeOk(t) && f < |cs| && Chain(t, cs[f], cs[f..]) && f <= target && f <= limit + 1
    ensures Walk(t, limit, f, cs[f], target) == Outcome(cs, limit, target)
    decreases |cs| - f
  {
    var c := cs[f..];
    ChainEnds(t, cs[f], c);
    if f < target && f <= limit && |c| > 1 {
      ChainTail(t, cs[f], c, 1);
      assert c[1..] == cs[f + 1..] && c[1] == cs[f + 1];
      WalkFrom(t, limit, f + 1, cs, target);
    }
  }

  lemma WalkChain(t: Table, limit: nat, start: nat, cs: seq<nat>, target: nat)
    requires SizeOk(t) && Chain(t, start, cs)
    ensures Walk(t, limit, 0, start, target) == Outcome(cs, limit, target)
  {
    assert cs[0..] == cs;
    WalkFrom(t, limit, 0, cs, target);
  }

  // ---- on bytes -----------------------------------------------------------------------------------------

  /** In the bytes of a table of `max` entries each of the clusters `cs` leads to the next one, and the last one
      holds a number `w` that leads to no cluster. */
  ghost predicate Links(k: Kind, t: seq<byte>, max: nat, cs: seq<nat>, w: nat) {
    && cs != [] && (w < 2 || max <= w) && Holds(k, t, cs[|cs| - 1], w)
    && (forall i :: 0 <= i < |cs| ==> 2 <= cs[i] < max)
    && (forall i :: 0 <= i < |cs| - 1 ==> Holds(k, t, cs[i], cs[i + 1]))
  }

  /** Where a walk along them ends. */
  ghost function LinksEnd(k: Kind, cs: seq<nat>, w: nat, limit: nat, target: nat): Walked
    requires cs != []
  {
    var n := |cs| - 1;
    if target <= n && target <= limit + 1 then Walked(Done, target, cs[target])
    else if limit < n then Walked(Eio, limit + 1, cs[limit + 1])
    else if w == 0 then Walked(Eio, n, cs[n])
    else if w >= BadWord(k) then Walked(Eof, n, cs[n])
    else if target == n + 1 then Walked(Done, n + 1, w)
    else Walked(Eio, n + 1, w)
  }

  lemma LinkAt(k: Kind, t: seq<byte>, max: nat, cs: seq<nat>, w: nat, f: nat)
    requires Covers(k, |t|, max) && max <= Bad(k) && Links(k, t, max, cs, w) && f < |cs|
    ensures var es := Entries(k, t, max);
            && InTable(es, cs[f])
            && es[cs[f]] == if f < |cs| - 1 then cs[f + 1] else if w >= BadWord(k) then FAT_ENT_EOF else w
    ensures f < |cs| - 1 ==> cs[f + 1] != FAT_ENT_FREE && cs[f + 1] != FAT_ENT_EOF
    ensures w < BadWord(k) ==> w != FAT_ENT_EOF && !InTable(Entries(k, t, max), w)
  {
    hide Holds, Get, Offs;
    EntryAt(k, t, max, cs[f]);
    HoldsGet(k, t, cs[f], if f < |cs| - 1 then cs[f + 1] else w);
  }

  lemma {:induction false} WalkLinks(k: Kind, t: seq<byte>, max: nat, cs: seq<nat>, w: nat, limit: nat, f: nat,
                                     target: nat)
    requires Covers(k, |t|, max) && max <= Bad(k) && Links(k, t, max, cs, w)
    requires f < |cs| && f <= target && f <= limit + 1
    ensures Walk(Entries(k, t, max), limit, f, cs[f], target) == LinksEnd(k, cs, w, limit, target)
    decreases |cs| - f
  {
    hide Holds, Entries, Covers, Bad;
    if f < target && f <= limit {
      LinkAt(k, t, max, cs, w, f);
      if f < |cs| - 1 {
        WalkLinks(k, t, max, cs, w, limit, f + 1, target);
      }
    }
  }

  /** A walk through any table, told from its bytes. */
  lemma WalkBytes(k: Kind, t: seq<byte>, max: nat, limit: nat, start: nat, target: nat)
    requires Covers(k, |t|, max) && max <= Bad(k)
    ensures forall cs, w :: Links(k, t, max, cs, w) && cs[0] == start ==>
              Walk(Entries(k, t, max), limit, 0, start, target) == LinksEnd(k, cs, w, limit, target)
  {
    hide Holds, Entries, Covers, Bad, Walk, LinksEnd;
    forall cs, w | Links(k, t, max, cs, w) && cs[0] == start
      ensures Walk(Entries(k, t, max), limit, 0, start, target) == LinksEnd(k, cs, w, limit, target)
    {
      WalkLinks(k, t, max, cs, w, limit, 0, target);
    }
  }
}
