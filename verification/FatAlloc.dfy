/** The allocator of the FAT, on the bytes of the table, block by block: in-place updates of the table and of the
    free-cluster count. */
module FatAlloc {
  import opened FatBytes
  import opened FatCursor
  import opened FatTable

  /** The cluster found last. */
  function LastOf(clusters: seq<nat>, before: nat): nat {
    if clusters == [] then before else clusters[|clusters| - 1]
  }

  class Fat {
    const kind: Kind
    const table: array<byte>
    /** The size of a block. */
    const size: nat
    const max: nat
    var prevFree: nat
    /** -1 when not known. */
    var freeClusters: int
    var freeValid: bool

    ghost predicate Valid()
      reads this
    {
      && size >= 4 && size % 4 == 0 && Covers(kind, table.Length, max) && FAT_START_ENT <= max <= Bad(kind)
      && FAT_START_ENT <= prevFree && freeClusters >= -1
    }

    /** The entries that the bytes stand for. */
    ghost function Ents(): (t: Table)
      requires Valid()
      reads this, table
      ensures |t| == max && SizeOk(t)
    {
      Entries(kind, table[..], max)
    }

    /** A known count is the number of free clusters. */
    ghost predicate Accurate()
      requires Valid()
      reads this, table
    {
      freeClusters == -1 || freeClusters == |FreeSet(Ents())|
    }

    /** The state after mounting a table. */
    constructor (kind: Kind, table: array<byte>, size: nat, max: nat)
      requires size >= 4 && size % 4 == 0 && Covers(kind, table.Length, max) && FAT_START_ENT <= max <= Bad(kind)
      ensures Valid() && Accurate() && this.kind == kind && this.table == table && this.size == size && this.max == max
      ensures prevFree == 2 && freeClusters == -1 && !freeValid
    {
      this.kind, this.table, this.size, this.max := kind, table, size, max;
      prevFree, freeClusters, freeValid := FAT_START_ENT, -1, false;
    }

    /** A cursor that holds no block yet. */
    method NewCursor() returns (c: Cursor)
      requires Valid()
      ensures fresh(c) && c.Over(kind, table, size, max) && c.nrBhs == 0
    {
      c := new Cursor(kind, table, size, max);
    }

    /** Frees the clusters from `c` on. Terminates on every table, and counts every freed entry. */
    method FreeClusters(c: nat) returns (ok: bool)
      requires Valid()
      modifies this`freeClusters, table
      ensures Valid() && (Ents(), ok) == Release(old(Ents()), c)
      ensures freeClusters == More(old(freeClusters), |FreeSet(Ents())| - |FreeSet(old(Ents()))|)
      ensures freeClusters == old(freeClusters) + if old(freeClusters) == -1 then 0
              else |FreeSet(Ents())| - |FreeSet(old(Ents()))|
    {
      hide FreeSet, UsedSet, Entries, Cursor.Positioned, Offs, Width, Bad, Covers, FatBytes.Get;
      ghost var t := Ents();
      var cur := NewCursor();
      var cluster, next := c, FAT_ENT_FREE;
      FreeValue(kind);
      while next != FAT_ENT_EOF
        invariant Valid() && cur.Over(kind, table, size, max) && cur.nrBhs <= 2 && (!kind.Fat12? ==> cur.nrBhs <= 1)
        invariant next != FAT_ENT_EOF ==> Release(t, c) == Release(Ents(), cluster)
        invariant next == FAT_ENT_EOF ==> Release(t, c) == (Ents(), true)
        invariant freeClusters == More(old(freeClusters), |FreeSet(Ents())| - |FreeSet(t)|)
        invariant |FreeSet(Ents())| >= |FreeSet(t)|
        decreases |UsedSet(Ents())|
      {
        var inside;
        inside, next := cur.Read(cluster);
        if !inside {
          return false;
        }
        EntryAt(kind, table[..], max, cluster);
        if next == FAT_ENT_FREE {
          return false;
        }
        UsedShrinks(Ents(), cluster);
        cur.Put(FAT_ENT_FREE);
        if freeClusters != -1 {
          freeClusters := freeClusters + 1;
        }
        cluster := next;
      }
      ok := true;
    }

    /** `prev` is at the cluster found last. */
    ghost predicate Trails(prev: Cursor, clusters: seq<nat>)
      reads this, prev
    {
      && prev.Over(kind, table, size, max)
      && if clusters == [] then prev.nrBhs == 0 else prev.Positioned() && prev.entry == clusters[|clusters| - 1]
    }

    /** Takes the entry at the cursor if it is free: it ends the chain, and the one before it leads to it. */
    method Take(cur: Cursor, prev: Cursor, clusters: seq<nat>) returns (found: bool)
      requires Valid() && cur.Over(kind, table, size, max) && cur.Positioned() && Trails(prev, clusters)
      requires FAT_START_ENT <= cur.entry && (clusters != [] ==> clusters[|clusters| - 1] < max)
      modifies this`prevFree, this`freeClusters, table
      ensures Valid() && found == (old(Ents())[cur.entry] == FAT_ENT_FREE)
      ensures !found ==> Ents() == old(Ents()) && prevFree == old(prevFree) && freeClusters == old(freeClusters)
      ensures found ==> Ents() == LinkNext(old(Ents()), clusters, cur.entry) && prevFree == cur.entry
      ensures found ==> freeClusters == Less(old(freeClusters), 1)
    {
      hide Entries, Offs, Width, Bad, Covers, FatBytes.Get;
      var v := cur.Get();
      EntryAt(kind, table[..], max, cur.entry);
      ClusterValue(kind, max, cur.entry);
      found := v == FAT_ENT_FREE;
      if found {
        cur.Put(FAT_ENT_EOF);
        if prev.nrBhs != 0 {
          prev.Put(cur.entry);
        }
        prevFree := cur.entry;
        if freeClusters != -1 {
          freeClusters := freeClusters - 1;
        }
      }
    }

    /** Where the search is: `count` entries are seen, and the cursor is at the next one. */
    ghost predicate At(cur: Cursor, prev: Cursor, t: Table, prevFree0: nat, freeClusters0: int, count: nat,
                       clusters: seq<nat>)
      reads this, cur, prev, table
    {
      && Valid() && cur != prev && cur.Over(kind, table, size, max) && Trails(prev, clusters)
      && |t| == max && FAT_START_ENT <= count <= max && FAT_START_ENT <= prevFree0 && cur.nrBhs <= 2
      && Searching(t, Ents(), Start(prevFree0, max), count - FAT_START_ENT, clusters)
      && prevFree == LastOf(clusters, prevFree0) && freeClusters == Less(freeClusters0, |clusters|)
      && (count < max ==>
            && FAT_START_ENT <= Start(prevFree0, max) < max
            && Wrap(cur.entry, max) == Visit(Start(prevFree0, max), count - FAT_START_ENT, max))
    }

    /** Looks at the entry at the cursor. */
    method Look(cur: Cursor, prev: Cursor, count: nat, clusters: seq<nat>, ghost t: Table, ghost prevFree0: nat,
                ghost freeClusters0: int)
      returns (clusters': seq<nat>)
      requires At(cur, prev, t, prevFree0, freeClusters0, count, clusters)
      requires count < max && cur.Positioned() && freeClusters0 >= -1
      modifies this`prevFree, this`freeClusters, prev, table
      ensures Valid() && Trails(prev, clusters') && |clusters'| <= |clusters| + 1
      ensures Searching(t, Ents(), Start(prevFree0, max), count + 1 - FAT_START_ENT, clusters')
      ensures prevFree == LastOf(clusters', prevFree0) && freeClusters == Less(freeClusters0, |clusters'|)
      ensures count + 1 < max ==>
                Wrap(cur.entry + 1, max) == Visit(Start(prevFree0, max), count + 1 - FAT_START_ENT, max)
    {
      hide Entries, Searching, LinkNext, Visit, Cursor.Positioned, FreeSet, Offs, Width, Bad, Covers;
      cur.Inside();
      SearchStep(t, Ents(), Start(prevFree0, max), count - FAT_START_ENT, clusters);
      clusters' := clusters;
      var found := Take(cur, prev, clusters);
      if found {
        clusters' := clusters + [cur.entry];
        prev.CopyFrom(cur);
      }
    }

    /** Looks at the entries from the cursor on that lie in the blocks held. */
    method SearchBlock(cur: Cursor, prev: Cursor, nr: nat, count: nat, clusters: seq<nat>, ghost t: Table,
                       ghost prevFree0: nat, ghost freeClusters0: int)
      returns (count': nat, clusters': seq<nat>)
      requires At(cur, prev, t, prevFree0, freeClusters0, count, clusters) && count < max && cur.Positioned()
      requires |clusters| < nr && freeClusters0 >= -1
      modifies this`prevFree, this`freeClusters, cur, prev, table
      ensures |clusters'| <= nr && count < count' <= max && Valid()
      ensures Searching(t, Ents(), Start(prevFree0, max), count' - FAT_START_ENT, clusters')
      ensures prevFree == LastOf(clusters', prevFree0) && freeClusters == Less(freeClusters0, |clusters'|)
      ensures |clusters'| < nr ==> At(cur, prev, t, prevFree0, freeClusters0, count', clusters')
    {
      hide Searching, Visit, Cursor.Positioned, Ents, FreeSet, Offs, Width, Bad, Covers;
      count', clusters' := count, clusters;
      var more := true;
      while more
        invariant At(cur, prev, t, prevFree0, freeClusters0, count', clusters') && |clusters'| < nr
        invariant more ==> count' < max && cur.Positioned()
        invariant count' >= count && (!more ==> count' > count)
        decreases max - count', more
      {
        clusters' := Look(cur, prev, count', clusters', t, prevFree0, freeClusters0);
        count' := count' + 1;
        if |clusters'| == nr {
          return;
        }
        if count' == max {
          return;
        }
        more := cur.Next();
        more := more && cur.entry < max;
      }
    }

    /** The circular search. */
    method Search(nr: nat) returns (ok: bool, clusters: seq<nat>)
      requires Valid() && nr > 0
      modifies this`prevFree, this`freeClusters, table
      ensures Valid() && SearchResult(old(Ents()), Ents(), old(prevFree), nr, ok, clusters)
      ensures prevFree == LastOf(clusters, old(prevFree)) && freeClusters == Less(old(freeClusters), |clusters|)
    {
      hide Entries, Searching, SearchResult, Visit, Cursor.Positioned, FreeSet, Offs, Width, Bad, Covers;
      ghost var t := Ents();
      var count: nat := FAT_START_ENT;
      clusters := [];
      var cur := NewCursor();
      var prev := NewCursor();
      cur.entry := prevFree + 1;
      SearchStart(t, prevFree);
      while count < max
        invariant fresh(cur) && fresh(prev)
        invariant At(cur, prev, t, old(prevFree), old(freeClusters), count, clusters) && |clusters| < nr
      {
        cur.entry := Wrap(cur.entry, max);
        cur.ReadBlock();
        count, clusters := SearchBlock(cur, prev, nr, count, clusters, t, old(prevFree), old(freeClusters));
        if |clusters| == nr {
          SearchEnd(t, Ents(), old(prevFree), count - FAT_START_ENT, nr, clusters);
          return true, clusters;
        }
      }
      SearchEnd(t, Ents(), old(prevFree), max - FAT_START_ENT, nr, clusters);
      ok := false;
    }

    /** Allocates `nr` clusters: the first free ones of a circular search, linked into a chain. If
        there are not enough, everything is taken back. */
    method AllocClusters(nr: nat) returns (ok: bool, clusters: seq<nat>)
      requires Valid() && nr > 0
      modifies this, table
      ensures Valid()
      ensures old(Refused(nr)) ==> !ok && clusters == [] && freeClusters == old(freeClusters)
      ensures prevFree == LastOf(clusters, old(prevFree)) && (!ok ==> |clusters| < nr)
      ensures !old(Refused(nr)) ==> (ok <==> nr <= |FreeSet(old(Ents()))|)
      ensures ok ==> |clusters| == nr && Start(old(prevFree), max) < max
      ensures ok ==> clusters <= FreeSeen(old(Ents()), Start(old(prevFree), max), max - FAT_START_ENT)
      ensures !old(freeValid) ==> (ok <==> nr <= |ZeroEntries(kind, old(table[..]), max)|)
      ensures ok ==> Nearest(old(Ents()), old(prevFree), clusters)
      ensures ok ==> Linked(old(Ents()), Ents(), clusters) && Distinct(clusters)
      ensures forall e :: e in clusters ==> InTable(old(Ents()), e) && old(Ents())[e] == FAT_ENT_FREE
      ensures ok ==> freeClusters == Less(old(freeClusters), nr) && freeValid == old(freeValid)
      ensures ok ==> freeClusters == if old(freeClusters) < nr then -1 else old(freeClusters) - nr
      ensures !ok ==> Ents() == old(Ents())
      ensures !ok && !old(Refused(nr)) ==> freeClusters == |FreeSet(Ents())| && freeValid
      ensures old(Accurate()) ==> Accurate()
    {
      hide FreeSet, UsedSet, FreeSeen, Visit, Linked, Distinct, Entries, Release, Bad, Covers, Nearest, ZeroEntries;
      if freeClusters != -1 && freeValid && freeClusters < nr {
        return false, [];
      }
      ghost var t := Ents();
      ZerosFree(kind, table[..], max);
      ok, clusters := Search(nr);
      if !ok {
        NoneMissed(t, Start(old(prevFree), |t|), clusters);
        freeClusters, freeValid := 0, true;
        if clusters != [] {
          LinkedChain(t, Ents(), clusters);
          ReleaseChain(Ents(), clusters[0], clusters);
          LinkedUndone(t, Ents(), clusters);
          LinkedFree(t, Ents(), clusters);
          var freed := FreeClusters(clusters[0]);
        } else {
          NothingLinked(t, Ents());
        }
      } else {
        LinkedFree(t, Ents(), clusters);
        SomeSeen(t, Start(old(prevFree), |t|), clusters);
        SeenNearest(t, old(prevFree), clusters);
      }
    }

    /** A valid count already says that there is not enough. */
    ghost predicate Refused(nr: nat)
      reads this
    {
      freeClusters != -1 && freeValid && freeClusters < nr
    }

    /** Makes the count of free clusters valid; a valid count is left as it is. */
    method CountFreeClusters()
      requires Valid()
      modifies this`freeClusters, this`freeValid
      ensures Valid() && freeClusters != -1 && freeValid
      ensures if old(freeClusters != -1 && freeValid) then freeClusters == old(freeClusters)
              else freeClusters == |FreeSet(Ents())|
      ensures old(Accurate()) ==> Accurate()
    {
      hide FreeSet, Entries, Bad, Covers;
      if freeClusters != -1 && freeValid {
        return;
      }
      var cur := NewCursor();
      var free := cur.CountFree();
      FreeCounted(Ents(), FAT_START_ENT);
      FreeFromStart(Ents());
      freeClusters, freeValid := free, true;
    }
  }

  lemma FreeValue(k: Kind)
    ensures Value(k, FAT_ENT_FREE)
  {
  }

  lemma ClusterValue(k: Kind, max: nat, c: nat)
    requires c < max <= Bad(k)
    ensures Value(k, c) && Value(k, FAT_ENT_EOF)
  {
  }

  /** A count, if known, after freeing `n` clusters. */
  function More(count: int, n: int): int {
    if count == -1 then -1 else count + n
  }

  ghost function FreeFrom(t: Table, e: nat): set<nat> {
    set c | e <= c < |t| && t[c] == FAT_ENT_FREE
  }

  /** The entries whose bytes are zero: the four upper bits of 32 do not count. */
  ghost function ZeroEntries(k: Kind, t: seq<byte>, max: nat): set<nat> {
    set e | 2 <= e < max && Holds(k, t, e, 0)
  }

  lemma ZerosFree(k: Kind, t: seq<byte>, max: nat)
    requires Covers(k, |t|, max)
    ensures ZeroEntries(k, t, max) == FreeSet(Entries(k, t, max))
  {
    hide Entries, Get, Offs, Width, Holds;
    var es := Entries(k, t, max);
    forall e: nat | 2 <= e < max ensures Holds(k, t, e, 0) <==> es[e] == FAT_ENT_FREE {
      EntryAt(k, t, max, e);
      var w := SomeWord(k, t, e);
      HoldsGet(k, t, e, w);
      SameWord(k, t, e, w);
    }
  }

  /** An entry of zero bytes holds zero and nothing else. */
  lemma SameWord(k: Kind, t: seq<byte>, e: nat, w: nat)
    requires Holds(k, t, e, w)
    ensures Holds(k, t, e, 0) <==> w == 0
  {
    if Holds(k, t, e, 0) && k.Fat32? {
      Whole32(w);
    }
  }

  lemma FreeFromStart(t: Table)
    ensures FreeFrom(t, FAT_START_ENT) == FreeSet(t)
  {
  }

  /** Counting the entries one after the other gives the size of the set of free clusters. */
  lemma {:induction false} FreeCounted(es: Table, e: nat)
    ensures FreeIn(es, e) == |FreeFrom(es, e)|
    decreases |es| - e
  {
    if e < |es| {
      FreeCounted(es, e + 1);
      var rest := FreeFrom(es, e + 1);
      assert FreeFrom(es, e) == if es[e] == FAT_ENT_FREE then rest + {e} else rest;
    } else {
      assert FreeFrom(es, e) == {};
    }
  }

  /** A count, if known, after taking `n` clusters. */
  function Less(count: int, n: nat): int {
    if count < n then -1 else count - n
  }

  /** The search starts over behind the last entry. */
  function Wrap(entry: nat, max: nat): nat {
    if entry >= max then FAT_START_ENT else entry
  }

  /** What a search for `nr` clusters does to the table `t`: it links the first free entries of the circular order, `nr`
      of them or all there are. */
  ghost predicate SearchResult(t: Table, t': Table, prevFree: nat, nr: nat, ok: bool, clusters: seq<nat>) {
    var start, all := Start(prevFree, |t|), |t| - FAT_START_ENT;
    && Linked(t, t', clusters) && Distinct(clusters)
    && (forall e :: e in clusters ==> InTable(t, e) && t[e] == FAT_ENT_FREE)
    && (if ok then |clusters| == nr else |clusters| < nr)
    && if start < |t| then
         FAT_START_ENT <= start && if ok then clusters <= FreeSeen(t, start, all)
           else clusters == FreeSeen(t, start, all)
       else |t| == FAT_START_ENT && !ok && clusters == []
  }

  /** After `k` steps of a search the free entries seen are linked. */
  ghost predicate Searching(t: Table, t': Table, start: nat, k: nat, cs: seq<nat>) {
    && Linked(t, t', cs) && Distinct(cs) && (forall e :: e in cs ==> InTable(t, e) && t[e] == FAT_ENT_FREE)
    && if FAT_START_ENT <= start < |t| then k <= |t| - FAT_START_ENT && cs == FreeSeen(t, start, k)
       else cs == [] && k == 0 && |t| == FAT_START_ENT
  }

  lemma SearchStart(t: Table, prevFree: nat)
    requires SizeOk(t) && FAT_START_ENT <= prevFree
    ensures Searching(t, t, Start(prevFree, |t|), 0, [])
    ensures |t| > FAT_START_ENT ==>
              var start := Start(prevFree, |t|);
              FAT_START_ENT <= start < |t| && Visit(start, 0, |t|) == start && start == Wrap(prevFree + 1, |t|)
  {
  }

  /** The entry visited next has not been touched yet; if it is free, it is linked behind the others. */
  lemma SearchStep(t: Table, t': Table, start: nat, k: nat, cs: seq<nat>)
    requires FAT_START_ENT <= start < |t| && k < |t| - FAT_START_ENT && Searching(t, t', start, k, cs)
    ensures var e := Visit(start, k, |t|);
            && |t'| == |t| && InTable(t, e) && t'[e] == t[e] && (cs != [] ==> cs[|cs| - 1] < |t|)
            && (if t[e] == FAT_ENT_FREE then Searching(t, LinkNext(t', cs, e), start, k + 1, cs + [e])
                else Searching(t, t', start, k + 1, cs))
            && |LinkNext(t', cs, e)| == |t|
            && (k + 1 < |t| - FAT_START_ENT ==> Visit(start, k + 1, |t|) == Wrap(e + 1, |t|))
  {
    hide FreeSeen, Linked, Visit, Distinct;
    FreshEntry(t, t', start, k, cs);
    SeenNext(t, start, k);
    if t[Visit(start, k, |t|)] == FAT_ENT_FREE {
      LinkOne(t, t', cs, Visit(start, k, |t|));
    }
  }

  lemma SearchEnd(t: Table, t': Table, prevFree: nat, k: nat, nr: nat, cs: seq<nat>)
    requires FAT_START_ENT <= prevFree && SizeOk(t) && k <= |t| - FAT_START_ENT
    requires Searching(t, t', Start(prevFree, |t|), k, cs) && nr > 0
    requires |cs| == nr || (k == |t| - FAT_START_ENT && |cs| < nr)
    ensures SearchResult(t, t', prevFree, nr, |cs| == nr, cs)
  {
    hide FreeSeen, Linked, Distinct;
    if Start(prevFree, |t|) < |t| {
      SeenPrefix(t, Start(prevFree, |t|), k, |t| - FAT_START_ENT);
    }
  }

  lemma NothingLinked(t: Table, t': Table)
    requires Linked(t, t', [])
    ensures t' == t
  {
  }

  lemma SeenNext(t: Table, start: nat, k: nat)
    requires FAT_START_ENT <= start < |t| && k < |t| - FAT_START_ENT
    ensures FreeSeen(t, start, k + 1) ==
            FreeSeen(t, start, k) + if t[Visit(start, k, |t|)] == FAT_ENT_FREE then [Visit(start, k, |t|)] else []
    ensures k + 1 < |t| - FAT_START_ENT ==>
              Visit(start, k + 1, |t|) == Wrap(Visit(start, k, |t|) + 1, |t|)
  {
  }

  /** The entry visited next has not been touched yet. */
  lemma FreshEntry(t: Table, t': Table, start: nat, k: nat, cs: seq<nat>)
    requires FAT_START_ENT <= start < |t| && k < |t| - FAT_START_ENT && Linked(t, t', cs) && cs == FreeSeen(t, start, k)
    ensures |t'| == |t| && (cs != [] ==> cs[|cs| - 1] < |t|)
    ensures Visit(start, k, |t|) !in cs && t'[Visit(start, k, |t|)] == t[Visit(start, k, |t|)]
  {
    SeenAre(t, start, k);
  }

  lemma NoneMissed(t: Table, start: nat, cs: seq<nat>)
    requires SizeOk(t) && if start < |t| then FAT_START_ENT <= start && cs == FreeSeen(t, start, |t| - FAT_START_ENT)
             else |t| == FAT_START_ENT && cs == []
    ensures |cs| == |FreeSet(t)|
  {
    if start < |t| {
      AllSeen(t, start);
    } else {
      assert FreeSet(t) == {};
    }
  }

  lemma SomeSeen(t: Table, start: nat, cs: seq<nat>)
    requires FAT_START_ENT <= start < |t| && cs <= FreeSeen(t, start, |t| - FAT_START_ENT)
    ensures |cs| <= |FreeSet(t)|
  {
    AllSeen(t, start);
  }
}
