/** The file allocation table as a sequence of entries: allocating and freeing cluster chains. */
module FatTable {
  import opened FatBytes

  /** Entry `c` of the table belongs to cluster `c`; the first two entries are reserved. */
  type Table = seq<nat>

  predicate InTable(t: Table, c: nat) {
    FAT_START_ENT <= c < |t|
  }

  predicate SizeOk(t: Table) {
    FAT_START_ENT <= |t| <= BAD_FAT32
  }

  ghost function FreeSet(t: Table): set<nat> {
    set c | FAT_START_ENT <= c < |t| && t[c] == FAT_ENT_FREE
  }

  ghost function UsedSet(t: Table): set<nat> {
    set c | FAT_START_ENT <= c < |t| && t[c] != FAT_ENT_FREE
  }

  // ---- chains -----------------------------------------------------------------------------------------

  /** `cs` are the clusters of a chain that starts at `c`: each entry leads to the next one, and the
      last one is marked as the end. */
  ghost predicate Chain(t: Table, c: nat, cs: seq<nat>) {
    && cs != [] && cs[0] == c && (forall i :: 0 <= i < |cs| ==> InTable(t, cs[i]))
    && (forall i :: 0 <= i < |cs| - 1 ==> t[cs[i]] == cs[i + 1])
    && t[cs[|cs| - 1]] == FAT_ENT_EOF
  }

  lemma ChainTail(t: Table, c: nat, cs: seq<nat>, i: nat)
    requires Chain(t, c, cs) && i < |cs|
    ensures Chain(t, cs[i], cs[i..])
  {
  }

  lemma ChainEnds(t: Table, c: nat, cs: seq<nat>)
    requires SizeOk(t) && Chain(t, c, cs)
    ensures |cs| == 1 <==> t[c] == FAT_ENT_EOF
  {
    if |cs| > 1 {
      assert InTable(t, cs[1]);
    }
  }

  lemma {:induction false} ChainUnique(t: Table, c: nat, cs: seq<nat>, ds: seq<nat>)
    requires SizeOk(t) && Chain(t, c, cs) && Chain(t, c, ds)
    ensures cs == ds
    decreases |cs|
  {
    ChainEnds(t, c, cs);
    ChainEnds(t, c, ds);
    if |cs| > 1 {
      ChainTail(t, c, cs, 1);
      ChainTail(t, c, ds, 1);
      ChainUnique(t, t[c], cs[1..], ds[1..]);
      assert cs == [c] + cs[1..] && ds == [c] + ds[1..];
    }
  }

  ghost predicate Distinct(cs: seq<nat>) {
    forall i, j :: 0 <= i < j < |cs| ==> cs[i] != cs[j]
  }

  /** A chain that ends visits no cluster twice. */
  lemma ChainDistinct(t: Table, c: nat, cs: seq<nat>)
    requires SizeOk(t) && Chain(t, c, cs)
    ensures Distinct(cs)
  {
    forall i, j | 0 <= i < j < |cs| ensures cs[i] != cs[j] {
      if cs[i] == cs[j] {
        ChainTail(t, c, cs, i);
        ChainTail(t, c, cs, j);
        ChainUnique(t, cs[i], cs[i..], cs[j..]);
        assert false;
      }
    }
  }

  /** A chain is the same in every table that agrees on its clusters. */
  lemma ChainKept(t: Table, t': Table, c: nat, cs: seq<nat>)
    requires Chain(t, c, cs) && |t'| == |t| && forall e :: e in cs && InTable(t, e) ==> t'[e] == t[e]
    ensures Chain(t', c, cs)
  {
    forall i | 0 <= i < |cs| ensures t'[cs[i]] == t[cs[i]] {
      assert cs[i] in cs;
    }
  }

  // ---- freeing ------------------------------------------------------------------------------------------

  lemma UsedShrinks(t: Table, c: nat)
    requires InTable(t, c) && t[c] != FAT_ENT_FREE
    ensures UsedSet(t[c := FAT_ENT_FREE]) == UsedSet(t) - {c} && |UsedSet(t[c := FAT_ENT_FREE])| == |UsedSet(t)| - 1
    ensures FreeSet(t[c := FAT_ENT_FREE]) == FreeSet(t) + {c} && |FreeSet(t[c := FAT_ENT_FREE])| == |FreeSet(t)| + 1
  {
    assert c in UsedSet(t);
    assert UsedSet(t[c := FAT_ENT_FREE]) == UsedSet(t) - {c};
    assert FreeSet(t[c := FAT_ENT_FREE]) == FreeSet(t) + {c};
  }

  /** What freeing from `c` on does to any table, and whether it comes to the end of a chain. */
  ghost function Release(t: Table, c: nat): (r: (Table, bool))
    ensures |r.0| == |t|
    decreases |UsedSet(t)|
  {
    if !InTable(t, c) || t[c] == FAT_ENT_FREE then (t, false)
    else if t[c] == FAT_ENT_EOF then (t[c := FAT_ENT_FREE], true)
    else
      UsedShrinks(t, c);
      Release(t[c := FAT_ENT_FREE], t[c])
  }

  /** The table with the clusters `cs` free. */
  ghost function Cleared(t: Table, cs: seq<nat>): (t': Table)
    ensures |t'| == |t|
  {
    seq(|t|, e requires 0 <= e < |t| => if e in cs then FAT_ENT_FREE else t[e])
  }

  /** A chain is freed cluster by cluster, and nothing else is. */
  lemma {:induction false} ReleaseChain(t: Table, c: nat, cs: seq<nat>)
    requires SizeOk(t) && Chain(t, c, cs)
    ensures Release(t, c) == (Cleared(t, cs), true)
    decreases |cs|
  {
    if |cs| == 1 {
      assert Cleared(t, cs) == t[c := FAT_ENT_FREE];
    } else {
      var t', ds := t[c := FAT_ENT_FREE], cs[1..];
      ChainDistinct(t, c, cs);
      ChainTail(t, c, cs, 1);
      assert forall e :: e in ds ==> e != c;
      ChainKept(t, t', cs[1], ds);
      ReleaseChain(t', cs[1], ds);
      UsedShrinks(t, c);
      assert cs == [c] + ds;
      assert Cleared(t', ds) == Cleared(t, cs);
    }
  }

  /** Freeing succeeds only on a chain, so a cyclic or cross-linked table is reported. */
  lemma {:induction false} ReleaseOnlyChain(t: Table, c: nat) returns (cs: seq<nat>)
    requires Release(t, c).1
    ensures Chain(t, c, cs)
    decreases |UsedSet(t)|
  {
    if t[c] == FAT_ENT_EOF {
      cs := [c];
    } else {
      var t' := t[c := FAT_ENT_FREE];
      UsedShrinks(t, c);
      var ds := ReleaseOnlyChain(t', t[c]);
      NotCleared(t, c, t[c], ds);
      cs := [c] + ds;
    }
  }

  lemma NotCleared(t: Table, c: nat, d: nat, ds: seq<nat>)
    requires InTable(t, c) && Chain(t[c := FAT_ENT_FREE], d, ds)
    ensures forall i :: 0 <= i < |ds| ==> ds[i] != c
  {
    var t' := t[c := FAT_ENT_FREE];
    forall i | 0 <= i < |ds| ensures ds[i] != c {
      assert InTable(t', ds[i]);
      if i < |ds| - 1 { assert t'[ds[i]] == ds[i + 1]; }
    }
  }

  /** Freeing succeeds exactly on the clusters that start a chain. */
  lemma ReleaseIff(t: Table, c: nat)
    requires SizeOk(t)
    ensures Release(t, c).1 <==> exists cs :: Chain(t, c, cs)
  {
    if Release(t, c).1 {
      var cs := ReleaseOnlyChain(t, c);
    }
    if cs :| Chain(t, c, cs) {
      ReleaseChain(t, c, cs);
    }
  }

  /** On any table, freeing only turns used entries into free ones. */
  lemma {:induction false} ReleaseFrees(t: Table, c: nat)
    ensures forall e :: 0 <= e < |t| ==> Release(t, c).0[e] == t[e] || Release(t, c).0[e] == FAT_ENT_FREE
    ensures UsedSet(Release(t, c).0) <= UsedSet(t)
    decreases |UsedSet(t)|
  {
    if InTable(t, c) && t[c] != FAT_ENT_FREE {
      UsedShrinks(t, c);
      if t[c] != FAT_ENT_EOF {
        ReleaseFrees(t[c := FAT_ENT_FREE], t[c]);
      }
    }
  }

  // ---- allocating -----------------------------------------------------------------------------------------

  /** Where the search starts. */
  function Start(prevFree: nat, max: nat): nat {
    if prevFree + 1 >= max then FAT_START_ENT else prevFree + 1
  }

  /** The `k`-th entry of the circular search. */
  function Visit(start: nat, k: nat, max: nat): (e: nat)
    requires FAT_START_ENT <= start < max && k < max - FAT_START_ENT
    ensures FAT_START_ENT <= e < max
  {
    if start + k < max then start + k else start + k - (max - FAT_START_ENT)
  }

  /** The free entries among the first `k` that the search visits, in that order. */
  function FreeSeen(t: Table, start: nat, k: nat): (cs: seq<nat>)
    requires FAT_START_ENT <= start < |t| && k <= |t| - FAT_START_ENT
  {
    if k == 0 then []
    else
      var e := Visit(start, k - 1, |t|);
      FreeSeen(t, start, k - 1) + if t[e] == FAT_ENT_FREE then [e] else []
  }

  lemma {:induction false} SeenAre(t: Table, start: nat, k: nat)
    requires FAT_START_ENT <= start < |t| && k <= |t| - FAT_START_ENT
    ensures forall e :: e in FreeSeen(t, start, k) <==>
              exists j :: 0 <= j < k && e == Visit(start, j, |t|) && t[e] == FAT_ENT_FREE
    ensures Distinct(FreeSeen(t, start, k))
    decreases k
  {
    if k > 0 {
      var e := Visit(start, k - 1, |t|);
      var init := FreeSeen(t, start, k - 1);
      SeenAre(t, start, k - 1);
      assert e !in init;
    }
  }

  /** Visiting every entry once sees all free ones. */
  lemma AllSeen(t: Table, start: nat)
    requires FAT_START_ENT <= start < |t|
    ensures var cs := FreeSeen(t, start, |t| - FAT_START_ENT);
            Distinct(cs) && (forall e :: e in cs <==> e in FreeSet(t)) && |cs| == |FreeSet(t)|
  {
    var n := |t| - FAT_START_ENT;
    var cs := FreeSeen(t, start, n);
    SeenAre(t, start, n);
    forall e | e in FreeSet(t) ensures e in cs {
      var j := if e >= start then e - start else e - start + n;
      assert e == Visit(start, j, |t|);
    }
    SizeOfDistinct(cs, FreeSet(t));
  }

  lemma {:induction false} SizeOfDistinct(cs: seq<nat>, s: set<nat>)
    requires Distinct(cs) && forall e :: e in cs <==> e in s
    ensures |cs| == |s|
    decreases |cs|
  {
    if cs == [] {
      assert s == {};
    } else {
      var n := |cs| - 1;
      var ds := cs[..n];
      assert cs == ds + [cs[n]];
      SizeOfDistinct(ds, s - {cs[n]});
    }
  }

  lemma {:induction false} SeenPrefix(t: Table, start: nat, k: nat, n: nat)
    requires FAT_START_ENT <= start < |t| && k <= n <= |t| - FAT_START_ENT
    ensures FreeSeen(t, start, k) <= FreeSeen(t, start, n)
    decreases n
  {
    if k < n {
      SeenPrefix(t, start, k, n - 1);
    }
  }

  /** The first of the given clusters that the search meets from its `k`-th step on; 0 if there is none. */
  ghost function SeekFree(free: set<nat>, start: nat, k: nat, max: nat): nat
    requires FAT_START_ENT <= start < max && k <= max - FAT_START_ENT
    decreases max - k
  {
    if k == max - FAT_START_ENT then 0
    else if Visit(start, k, max) in free then Visit(start, k, max)
    else SeekFree(free, start, k + 1, max)
  }

  lemma {:induction false} SeekSeen(t: Table, start: nat, k: nat)
    requires FAT_START_ENT <= start < |t| && k <= |t| - FAT_START_ENT
    ensures var seen := FreeSeen(t, start, k);
            SeekFree(FreeSet(t), start, 0, |t|) == if seen == [] then SeekFree(FreeSet(t), start, k, |t|) else seen[0]
    decreases k
  {
    if k > 0 {
      SeekSeen(t, start, k - 1);
    }
  }

  /** The cluster that is allocated next. */
  ghost function NextFree(free: set<nat>, prevFree: nat, max: nat): nat {
    if Start(prevFree, max) < max && FAT_START_ENT <= Start(prevFree, max)
    then SeekFree(free, Start(prevFree, max), 0, max) else 0
  }

  /** How far the circular search has to go for cluster `e`, when `prevFree` was found last. */
  ghost function Ahead(prevFree: nat, max: nat, e: nat): int {
    var p := if prevFree < max then prevFree else max - 1;
    if e > p then e - p else e - p + (max - 2)
  }

  /** `cs` are the free entries up to distance `k`, in the order of their distance. */
  ghost predicate SeenUpto(t: Table, prevFree: nat, cs: seq<nat>, k: nat) {
    && (forall i :: 0 <= i < |cs| ==> 2 <= cs[i] < |t| && t[cs[i]] == 0 && 1 <= Ahead(prevFree, |t|, cs[i]) <= k)
    && (forall i, j :: 0 <= i < j < |cs| ==> Ahead(prevFree, |t|, cs[i]) < Ahead(prevFree, |t|, cs[j]))
    && (forall e :: 2 <= e < |t| && t[e] == 0 && Ahead(prevFree, |t|, e) <= k ==> e in cs)
  }

  lemma {:induction false} SeenInOrder(t: Table, prevFree: nat, k: nat)
    requires 2 <= prevFree && |t| > 2 && k <= |t| - 2
    ensures 2 <= Start(prevFree, |t|) < |t|
    ensures SeenUpto(t, prevFree, FreeSeen(t, Start(prevFree, |t|), k), k)
    decreases k
  {
    hide SeenUpto;
    StartIn(prevFree, |t|);
    if k == 0 {
      NoneSeen(t, prevFree);
    } else {
      SeenInOrder(t, prevFree, k - 1);
      VisitAhead(prevFree, k - 1, |t|);
      var start := Start(prevFree, |t|);
      OneFurther(t, prevFree, FreeSeen(t, start, k - 1), Visit(start, k - 1, |t|), k);
    }
  }

  lemma NoneSeen(t: Table, prevFree: nat)
    requires 2 <= prevFree
    ensures SeenUpto(t, prevFree, [], 0)
  {
    forall e | 2 <= e < |t| ensures Ahead(prevFree, |t|, e) > 0 {
      AheadBound(prevFree, |t|, e);
    }
  }

  lemma OneFurther(t: Table, prevFree: nat, cs: seq<nat>, e: nat, k: nat)
    requires 1 <= k && SeenUpto(t, prevFree, cs, k - 1) && 2 <= e < |t|
    requires forall f :: 2 <= f < |t| ==> (Ahead(prevFree, |t|, f) == k <==> f == e)
    ensures SeenUpto(t, prevFree, cs + if t[e] == 0 then [e] else [], k)
  {
    hide Ahead;
    assert Ahead(prevFree, |t|, e) == k;
    forall f | 2 <= f < |t| && t[f] == 0 && Ahead(prevFree, |t|, f) <= k
      ensures f in cs + if t[e] == 0 then [e] else []
    {
      if f != e { assert Ahead(prevFree, |t|, f) <= k - 1; }
    }
  }

  lemma StartIn(prevFree: nat, max: nat)
    requires 2 <= prevFree && max > 2
    ensures 2 <= Start(prevFree, max) < max
  {
  }

  /** Step `k` of the search looks at the one entry that is so far ahead. */
  lemma VisitAhead(prevFree: nat, k: nat, max: nat)
    requires 2 <= prevFree && max > 2 && k < max - 2 && 2 <= Start(prevFree, max) < max
    ensures forall e :: 2 <= e < max ==>
              (Ahead(prevFree, max, e) == k + 1 <==> e == Visit(Start(prevFree, max), k, max))
    ensures 2 <= Visit(Start(prevFree, max), k, max) < max
    ensures Ahead(prevFree, max, Visit(Start(prevFree, max), k, max)) == k + 1
    ensures forall e :: 2 <= e < max ==> 1 <= Ahead(prevFree, max, e)
  {
  }

  /** Clusters taken by a search: they are free, each one is the nearest one left, and none is skipped. */
  ghost predicate Nearest(t: Table, prevFree: nat, cs: seq<nat>) {
    && (forall i :: 0 <= i < |cs| ==> 2 <= cs[i] < |t| && t[cs[i]] == 0)
    && (forall i, j :: 0 <= i < j < |cs| ==> Ahead(prevFree, |t|, cs[i]) < Ahead(prevFree, |t|, cs[j]))
    && (forall e :: 2 <= e < |t| && t[e] == 0 && e !in cs ==>
          forall i :: 0 <= i < |cs| ==> Ahead(prevFree, |t|, cs[i]) < Ahead(prevFree, |t|, e))
  }

  lemma SeenNearest(t: Table, prevFree: nat, cs: seq<nat>)
    requires 2 <= prevFree && |t| > 2 && 2 <= Start(prevFree, |t|) < |t|
    requires cs <= FreeSeen(t, Start(prevFree, |t|), |t| - 2)
    ensures Nearest(t, prevFree, cs)
  {
    hide FreeSeen, Start, Ahead;
    SeenInOrder(t, prevFree, |t| - 2);
    var all := FreeSeen(t, Start(prevFree, |t|), |t| - 2);
    forall e, i | 2 <= e < |t| && t[e] == 0 && e !in cs && 0 <= i < |cs|
      ensures Ahead(prevFree, |t|, cs[i]) < Ahead(prevFree, |t|, e)
    {
      AheadBound(prevFree, |t|, e);
      assert e in all;
      var j :| 0 <= j < |all| && all[j] == e;
      assert j >= |cs|;
      assert all[i] == cs[i];
    }
  }

  lemma AheadBound(prevFree: nat, max: nat, e: nat)
    requires 2 <= prevFree && 2 <= e < max
    ensures 1 <= Ahead(prevFree, max, e) <= max - 2
  {
  }

  /** `t'` is `t` with the clusters `cs` linked into a chain. */
  ghost predicate Linked(t: Table, t': Table, cs: seq<nat>) {
    && |t'| == |t| && (forall i :: 0 <= i < |cs| ==> InTable(t, cs[i]))
    && (forall i :: 0 <= i < |cs| - 1 ==> t'[cs[i]] == cs[i + 1])
    && (cs != [] ==> t'[cs[|cs| - 1]] == FAT_ENT_EOF)
    && (forall e :: 0 <= e < |t| && e !in cs ==> t'[e] == t[e])
  }

  lemma LinkedChain(t: Table, t': Table, cs: seq<nat>)
    requires Linked(t, t', cs) && cs != []
    ensures Chain(t', cs[0], cs)
  {
  }

  /** Appending one more cluster to the chain. */
  function LinkNext(t: Table, cs: seq<nat>, e: nat): Table
    requires InTable(t, e) && (cs != [] ==> cs[|cs| - 1] < |t|)
  {
    var t' := t[e := FAT_ENT_EOF];
    if cs == [] then t' else t'[cs[|cs| - 1] := e]
  }

  lemma LinkOne(t: Table, t': Table, cs: seq<nat>, e: nat)
    requires Linked(t, t', cs) && InTable(t, e) && e !in cs && Distinct(cs)
    ensures Linked(t, LinkNext(t', cs, e), cs + [e]) && Distinct(cs + [e])
  {
    var t2, ds := LinkNext(t', cs, e), cs + [e];
    forall i | 0 <= i < |ds| - 1 ensures t2[ds[i]] == ds[i + 1] {
      assert cs[i] in cs;
    }
    forall x | 0 <= x < |t| && x !in ds ensures t2[x] == t[x] {
      assert e in ds;
      assert forall y :: y in cs ==> y in ds;
    }
  }

  /** Freeing a chain of formerly free clusters gives the old table back. */
  lemma LinkedUndone(t: Table, t': Table, cs: seq<nat>)
    requires Linked(t, t', cs) && forall e :: e in cs ==> InTable(t, e) && t[e] == FAT_ENT_FREE
    ensures Cleared(t', cs) == t
  {
  }

  /** Allocating takes exactly the linked clusters out of the free ones. */
  lemma LinkedFree(t: Table, t': Table, cs: seq<nat>)
    requires SizeOk(t) && Linked(t, t', cs) && Distinct(cs)
    requires forall e :: e in cs ==> InTable(t, e) && t[e] == FAT_ENT_FREE
    ensures FreeSet(t') == FreeSet(t) - (set e | e in cs) && |FreeSet(t')| == |FreeSet(t)| - |cs|
  {
    var s := set e | e in cs;
    SizeOfDistinct(cs, s);
    forall e | e in cs ensures t'[e] != FAT_ENT_FREE {
      var i :| 0 <= i < |cs| && cs[i] == e;
      if i < |cs| - 1 { assert InTable(t, cs[i + 1]); }
    }
    assert FreeSet(t') == FreeSet(t) - s;
    assert s <= FreeSet(t);
  }

  /** The cluster allocated next is the nearest free one. */
  lemma NextIsNearest(free: set<nat>, prevFree: nat, max: nat)
    requires 2 <= prevFree && forall e :: e in free ==> 2 <= e < max
    ensures free == {} ==> NextFree(free, prevFree, max) == 0
    ensures free != {} ==>
              var c := NextFree(free, prevFree, max);
              c in free && forall e :: e in free && e != c ==> Ahead(prevFree, max, c) < Ahead(prevFree, max, e)
  {
    if max > 2 {
      SeekNearest(free, prevFree, max, 0);
      forall e | e in free ensures Ahead(prevFree, max, e) > 0 {
        AheadBound(prevFree, max, e);
      }
    }
  }

  lemma {:induction false} SeekNearest(free: set<nat>, prevFree: nat, max: nat, k: nat)
    requires 2 <= prevFree && max > 2 && k <= max - 2 && forall e :: e in free ==> 2 <= e < max
    requires forall e :: e in free ==> Ahead(prevFree, max, e) > k
    ensures 2 <= Start(prevFree, max) < max
    ensures var c := SeekFree(free, Start(prevFree, max), k, max);
            if free == {} then c == 0
            else c in free && forall e :: e in free && e != c ==> Ahead(prevFree, max, c) < Ahead(prevFree, max, e)
    decreases max - k
  {
    if k == max - 2 {
      forall e | e in free ensures false {
        AheadBound(prevFree, max, e);
      }
      assert free == {};
    } else {
      var v := Visit(Start(prevFree, max), k, max);
      assert Ahead(prevFree, max, v) == k + 1;
      forall e | 2 <= e < max && e != v ensures Ahead(prevFree, max, e) != k + 1 {
      }
      if v !in free {
        SeekNearest(free, prevFree, max, k + 1);
      }
    }
  }
}
