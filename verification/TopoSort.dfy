/** The order in which the regression driver runs its tests: dependencies first, and otherwise by
    priority. */
module TopoSort {

  /** Test names. */
  type Key = string
  type Deps = map<Key, set<Key>>

  ghost predicate Distinct(ks: seq<Key>) {
    forall i, j :: 0 <= i < j < |ks| ==> ks[i] != ks[j]
  }

  ghost function Members(ks: seq<Key>): set<Key> {
    set k | k in ks
  }

  /** The tests that can run once those in `done` have run. */
  ghost function Ready(keys: set<Key>, deps: Deps, done: set<Key>): set<Key>
    requires keys <= deps.Keys
  {
    set k | k in keys && k !in done && deps[k] <= done
  }

  /** The lexicographic order of names. */
  predicate Lex(a: Key, b: Key) {
    a == [] || (b != [] && (a[0] < b[0] || (a[0] == b[0] && Lex(a[1..], b[1..]))))
  }

  lemma {:induction false} LexTotal(a: Key, b: Key)
    ensures Lex(a, b) || Lex(b, a)
    ensures Lex(a, b) && Lex(b, a) ==> a == b
  {
    if a != [] && b != [] && a[0] == b[0] {
      LexTotal(a[1..], b[1..]);
      assert a == [a[0]] + a[1..] && b == [b[0]] + b[1..];
    }
  }

  lemma {:induction false} LexTransitive(a: Key, b: Key, c: Key)
    requires Lex(a, b) && Lex(b, c)
    ensures Lex(a, c)
  {
    if a != [] && a[0] == b[0] == c[0] {
      LexTransitive(a[1..], b[1..], c[1..]);
    }
  }

  /** Where two names in order differ: the first one is a proper prefix, or has the smaller character there. */
  lemma {:induction false} LexAt(a: Key, b: Key)
    requires Lex(a, b) && a != b
    ensures exists n :: 0 <= n <= |a| && n < |b| && a[..n] == b[..n] && (n == |a| || a[n] < b[n])
  {
    if a == [] || a[0] < b[0] {
      assert a[..0] == b[..0];
    } else {
      var a', b' := a[1..], b[1..];
      assert a == [a[0]] + a' && b == [b[0]] + b';
      LexAt(a', b');
      var n :| 0 <= n <= |a'| && n < |b'| && a'[..n] == b'[..n] && (n == |a'| || a'[n] < b'[n]);
      assert a[..n + 1] == [a[0]] + a'[..n] && b[..n + 1] == [b[0]] + b'[..n];
    }
  }

  /** The order in which the heap hands out tests. */
  predicate Before(prio: map<Key, int>, a: Key, b: Key)
    requires a in prio && b in prio
  {
    prio[a] < prio[b] || (prio[a] == prio[b] && Lex(a, b))
  }

  lemma BeforeTotal(prio: map<Key, int>, a: Key, b: Key)
    requires a in prio && b in prio
    ensures Before(prio, a, b) || Before(prio, b, a)
  {
    LexTotal(a, b);
  }

  lemma BeforeTransitive(prio: map<Key, int>, a: Key, b: Key, c: Key)
    requires a in prio && b in prio && c in prio && Before(prio, a, b) && Before(prio, b, c)
    ensures Before(prio, a, c)
  {
    if prio[a] == prio[c] {
      LexTransitive(a, b, c);
    }
  }

  ghost predicate LeastOf(prio: map<Key, int>, ks: set<Key>, k: Key)
    requires ks <= prio.Keys
  {
    k in ks && forall j :: j in ks ==> Before(prio, k, j)
  }

  // ---- the specification ----------------------------------------------------------------------------------

  /** Every test runs after all its dependencies, and each is the least one that can run at that point. */
  ghost predicate Greedy(keys: set<Key>, prio: map<Key, int>, deps: Deps, order: seq<Key>)
    requires keys <= deps.Keys && keys <= prio.Keys
  {
    forall i :: 0 <= i < |order| ==> LeastOf(prio, Ready(keys, deps, Members(order[..i])), order[i])
  }

  /** A closed walk along dependencies. */
  ghost predicate IsCycle(keys: set<Key>, deps: Deps, c: seq<Key>)
    requires keys <= deps.Keys
  {
    |c| >= 2 && c[0] == c[|c| - 1] && (forall i :: 0 <= i < |c| ==> c[i] in keys) && IsPath(deps, c)
  }

  ghost predicate IsPath(deps: Deps, p: seq<Key>) {
    forall i :: 0 <= i < |p| - 1 ==> Edge(deps, p, i)
  }

  ghost predicate Edge(deps: Deps, p: seq<Key>, i: nat)
    requires i < |p| - 1
  {
    p[i] in deps && p[i + 1] in deps[p[i]]
  }

  // ---- cycles -----------------------------------------------------------------------------------------------

  ghost predicate Stuck(deps: Deps, s: set<Key>)
    requires s <= deps.Keys
  {
    forall k {:trigger Waits(deps, s, k)} :: k in s ==> Waits(deps, s, k)
  }

  ghost predicate Waits(deps: Deps, s: set<Key>, k: Key) {
    k in deps && exists d :: d in deps[k] && d in s
  }

  lemma {:induction false} PathIn(deps: Deps, s: set<Key>, k: Key, n: nat) returns (p: seq<Key>)
    requires s <= deps.Keys && Stuck(deps, s) && k in s
    ensures |p| == n + 1 && p[0] == k && (forall i :: 0 <= i < |p| ==> p[i] in s) && IsPath(deps, p)
    decreases n
  {
    if n == 0 {
      p := [k];
    } else {
      assert Waits(deps, s, k);
      var d :| d in deps[k] && d in s;
      var q := PathIn(deps, s, d, n - 1);
      p := [k] + q;
      forall i | 0 <= i < |p| - 1 ensures Edge(deps, p, i) {
        if i > 0 { assert Edge(deps, q, i - 1); }
      }
    }
  }

  lemma {:induction false} DistinctSize(p: seq<Key>, s: set<Key>)
    requires Distinct(p) && forall i :: 0 <= i < |p| ==> p[i] in s
    ensures |p| <= |s|
    decreases |p|
  {
    if p != [] {
      DistinctSize(p[1..], s - {p[0]});
    }
  }

  /** Where every test waits for another one of the same set, there is a cycle. */
  lemma StuckCycle(keys: set<Key>, deps: Deps, s: set<Key>) returns (c: seq<Key>)
    requires s <= keys <= deps.Keys && Stuck(deps, s) && s != {}
    ensures IsCycle(keys, deps, c)
  {
    var k :| k in s;
    var p := PathIn(deps, s, k, |s|);
    if Distinct(p) {
      DistinctSize(p, s);
      assert false;
    }
    var i, j :| 0 <= i < j < |p| && p[i] == p[j];
    c := p[i..j + 1];
    forall k | 0 <= k < |c| - 1 ensures Edge(deps, c, k) {
      assert Edge(deps, p, i + k);
    }
  }

  /** The place of a member. */
  lemma PlaceOf(order: seq<Key>, k: Key) returns (i: nat)
    requires k in order
    ensures i < |order| && order[i] == k
  {
    i :| 0 <= i < |order| && order[i] == k;
  }

  /** Along a walk over dependencies one moves towards the front of the order. */
  lemma {:induction false} WalkBack(keys: set<Key>, prio: map<Key, int>, deps: Deps, order: seq<Key>, c: seq<Key>,
                                    i: nat, n: nat)
    requires keys <= deps.Keys && keys <= prio.Keys && Greedy(keys, prio, deps, order) && IsCycle(keys, deps, c)
    requires i < |c| && n <= |order| && c[i] in order[..n]
    ensures c[|c| - 1] in order[..n] && (i < |c| - 1 ==> n > 0 && c[|c| - 1] in order[..n - 1])
    decreases |c| - i
  {
    if i < |c| - 1 {
      var m := PlaceOf(order[..n], c[i]);
      assert order[m] == c[i] && LeastOf(prio, Ready(keys, deps, Members(order[..m])), order[m]);
      assert Edge(deps, c, i);
      assert c[i + 1] in order[..m];
      WalkBack(keys, prio, deps, order, c, i + 1, m);
      assert c[|c| - 1] in order[..m] && forall x :: x in order[..m] ==> x in order[..n - 1];
    }
  }

  /** No order that respects dependencies has a member on a cycle. */
  lemma {:induction false} NoCycle(keys: set<Key>, prio: map<Key, int>, deps: Deps, order: seq<Key>, c: seq<Key>,
                                   n: nat)
    requires keys <= deps.Keys && keys <= prio.Keys && Greedy(keys, prio, deps, order) && IsCycle(keys, deps, c)
    requires n <= |order|
    ensures c[0] !in order[..n]
    decreases n
  {
    if c[0] in order[..n] {
      WalkBack(keys, prio, deps, order, c, 0, n);
      NoCycle(keys, prio, deps, order, c, n - 1);
      assert false;
    }
  }

  // ---- the algorithm ------------------------------------------------------------------------------------------

  /** `children` are the tests that wait for a test. */
  ghost predicate ChildrenOk(keys: set<Key>, deps: Deps, children: Deps)
    requires keys <= deps.Keys
  {
    && (forall p, k :: p in children && k in children[p] ==> k in keys && p in deps[k])
    && (forall k, p :: k in keys && p in deps[k] ==> p in children && k in children[p])
  }

  method BuildGraph(keys: seq<Key>, deps: Deps) returns (children: Deps, parents: map<Key, int>)
    requires Members(keys) <= deps.Keys
    ensures ChildrenOk(Members(keys), deps, children)
    ensures parents.Keys == Members(keys) && forall k :: k in parents ==> parents[k] == |deps[k]|
  {
    children, parents := map[], map[];
    for i := 0 to |keys|
      invariant parents.Keys == Members(keys[..i]) && forall k :: k in parents ==> k in deps && parents[k] == |deps[k]|
      invariant ChildrenOk(Members(keys[..i]), deps, children)
    {
      var key := keys[i];
      assert key in Members(keys);
      assert Members(keys[..i + 1]) == Members(keys[..i]) + {key};
      parents := parents[key := |deps[key]|];
      children := AddChild(key, deps[key], children, deps, Members(keys[..i]));
    }
    assert keys[..|keys|] == keys;
  }

  method AddChild(key: Key, ps: set<Key>, children: Deps, ghost deps: Deps, ghost keys: set<Key>)
    returns (children': Deps)
    requires keys <= deps.Keys && key in deps && ps == deps[key] && ChildrenOk(keys, deps, children)
    ensures ChildrenOk(keys + {key}, deps, children')
  {
    children' := children;
    var todo := ps;
    while todo != {}
      invariant todo <= ps
      invariant forall p, k :: p in children' && k in children'[p] ==> (k in keys || k == key) && p in deps[k]
      invariant forall k, p :: k in keys && p in deps[k] ==> p in children' && k in children'[p]
      invariant forall p :: p in ps && p !in todo ==> p in children' && key in children'[p]
      decreases |todo|
    {
      var p :| p in todo;
      todo := todo - {p};
      children' := children'[p := (if p in children' then children'[p] else {}) + {key}];
    }
  }

  /** Takes the least key from the heap. */
  method PopLeast(heap: set<Key>, prio: map<Key, int>) returns (k: Key)
    requires heap != {} && heap <= prio.Keys
    ensures LeastOf(prio, heap, k)
  {
    hide Before;
    k :| k in heap;
    BeforeTotal(prio, k, k);
    var todo := heap - {k};
    while todo != {}
      invariant todo <= heap && k in heap && forall j :: j in heap && j !in todo ==> Before(prio, k, j)
      decreases |todo|
    {
      var j :| j in todo;
      todo := todo - {j};
      BeforeTotal(prio, j, k);
      if Before(prio, j, k) {
        forall x | x in heap && x !in todo ensures Before(prio, j, x) {
          BeforeTotal(prio, j, j);
          if x != j { BeforeTransitive(prio, j, k, x); }
        }
        k := j;
      }
    }
  }

  /** The counts and the heap agree with what is done. */
  ghost predicate CountsOk(keys: set<Key>, deps: Deps, done: set<Key>, parents: map<Key, int>, heap: set<Key>)
    requires keys <= deps.Keys
  {
    && parents.Keys == keys && (forall k :: k in keys ==> parents[k] == |deps[k] - done|)
    && heap == Ready(keys, deps, done)
  }

  /** Whatever is done has its dependencies done. */
  ghost predicate Closed(deps: Deps, done: set<Key>) {
    forall k :: k in done ==> k in deps && deps[k] <= done
  }

  lemma OneLess(s: set<Key>, done: set<Key>, k: Key)
    requires k !in done
    ensures |s - (done + {k})| == |s - done| - if k in s then 1 else 0
  {
    var a, b := s - done, s - (done + {k});
    assert a == if k in s then b + {k} else b;
  }

  /** The count of `s` once `k` is done. */
  ghost function Left(deps: Deps, done: set<Key>, k: Key, s: Key): nat
    requires s in deps
  {
    |deps[s] - (done + {k})|
  }

  /** Counts down the children of `k`, and puts those that wait for nothing any more on the heap. */
  method Finish(k: Key, kids: set<Key>, parents: map<Key, int>, heap: set<Key>, ghost keys: set<Key>, ghost deps: Deps,
                ghost done: set<Key>)
    returns (parents': map<Key, int>, heap': set<Key>)
    requires keys <= deps.Keys && CountsOk(keys, deps, done, parents, heap + {k}) && k !in heap && k !in done
    requires Closed(deps, done)
    requires forall s :: s in kids <==> s in keys && k in deps[s]
    ensures CountsOk(keys, deps, done + {k}, parents', heap')
  {
    hide CountsOk, Closed, Left;
    FinishStart(k, kids, parents, heap, keys, deps, done);
    parents', heap' := parents, heap;
    var todo := kids;
    while todo != {}
      invariant todo <= kids && parents'.Keys == keys
      invariant forall s :: s in keys ==> parents'[s] == Left(deps, done, k, s) + if s in todo then 1 else 0
      invariant forall s :: s in heap' <==> s in heap || (s in kids && s !in todo && Left(deps, done, k, s) == 0)
      decreases |todo|
    {
      var s :| s in todo;
      todo := todo - {s};
      parents' := parents'[s := parents'[s] - 1];
      if parents'[s] == 0 {
        heap' := heap' + {s};
      }
    }
    FinishEnd(k, kids, parents', heap, heap', keys, deps, done);
  }

  lemma FinishStart(k: Key, kids: set<Key>, parents: map<Key, int>, heap: set<Key>, keys: set<Key>, deps: Deps,
                    done: set<Key>)
    requires keys <= deps.Keys && CountsOk(keys, deps, done, parents, heap + {k}) && k !in done
    requires forall s :: s in kids <==> s in keys && k in deps[s]
    ensures parents.Keys == keys && heap + {k} == Ready(keys, deps, done)
    ensures forall s :: s in keys ==> parents[s] == Left(deps, done, k, s) + if s in kids then 1 else 0
  {
    hide Ready, Left;
    forall s | s in keys ensures parents[s] == Left(deps, done, k, s) + if s in kids then 1 else 0 {
      CountOne(deps, done, k, s);
    }
  }

  lemma FinishEnd(k: Key, kids: set<Key>, parents: map<Key, int>, heap: set<Key>, heap': set<Key>, keys: set<Key>,
                  deps: Deps, done: set<Key>)
    requires keys <= deps.Keys && heap + {k} == Ready(keys, deps, done) && k !in heap && Closed(deps, done)
    requires forall s :: s in kids <==> s in keys && k in deps[s]
    requires forall s :: s in heap' <==> s in heap || (s in kids && Left(deps, done, k, s) == 0)
    requires parents.Keys == keys && forall s :: s in keys ==> parents[s] == Left(deps, done, k, s)
    ensures CountsOk(keys, deps, done + {k}, parents, heap')
  {
    hide Ready, Closed, Left;
    FinishCounts(k, kids, keys, deps, done, heap, heap');
    FinishLeft(keys, deps, done, k, parents);
  }

  lemma CountOne(deps: Deps, done: set<Key>, k: Key, s: Key)
    requires s in deps && k !in done
    ensures |deps[s] - done| == Left(deps, done, k, s) + if k in deps[s] then 1 else 0
  {
    OneLess(deps[s], done, k);
  }

  lemma FinishLeft(keys: set<Key>, deps: Deps, done: set<Key>, k: Key, parents: map<Key, int>)
    requires keys <= deps.Keys && parents.Keys == keys && forall s :: s in keys ==> parents[s] == Left(deps, done, k, s)
    ensures forall s :: s in keys ==> parents[s] == |deps[s] - (done + {k})|
  {
  }

  lemma FinishCounts(k: Key, kids: set<Key>, keys: set<Key>, deps: Deps, done: set<Key>, heap: set<Key>,
                     heap': set<Key>)
    requires keys <= deps.Keys && heap + {k} == Ready(keys, deps, done) && k !in heap && Closed(deps, done)
    requires forall s :: s in kids <==> s in keys && k in deps[s]
    requires forall s :: s in heap' <==> s in heap || (s in kids && Left(deps, done, k, s) == 0)
    ensures heap' == Ready(keys, deps, done + {k})
  {
    forall s | s in keys ensures |deps[s] - (done + {k})| == 0 <==> deps[s] <= done + {k} {
      var d := deps[s] - (done + {k});
      assert d == {} <==> deps[s] <= done + {k};
    }
    forall s ensures s in heap' <==> s in Ready(keys, deps, done + {k}) {
      if s in heap { assert s in heap + {k}; assert s in Ready(keys, deps, done); }
      if s in Ready(keys, deps, done + {k}) && s !in kids {
        assert s in Ready(keys, deps, done);
      }
      if s in kids && deps[s] <= done + {k} {
        assert s !in done && s != k;
      }
    }
  }

  /** What is known when `order` has been put out. */
  ghost predicate Progress(keys: set<Key>, prio: map<Key, int>, deps: Deps, order: seq<Key>)
    requires keys <= deps.Keys && keys <= prio.Keys
  {
    Distinct(order) && Members(order) <= keys && Closed(deps, Members(order)) && Greedy(keys, prio, deps, order)
  }

  lemma ProgressNext(keys: set<Key>, prio: map<Key, int>, deps: Deps, order: seq<Key>, k: Key)
    requires keys <= deps.Keys && keys <= prio.Keys && Progress(keys, prio, deps, order)
    requires LeastOf(prio, Ready(keys, deps, Members(order)), k)
    ensures Progress(keys, prio, deps, order + [k]) && Members(order + [k]) == Members(order) + {k}
    ensures k !in Members(order)
    ensures |keys - Members(order + [k])| < |keys - Members(order)|
  {
    hide Greedy, Before;
    GreedyNext(keys, prio, deps, order, k);
    var m := Members(order);
    assert Members(order + [k]) == m + {k};
    Fewer(keys, m, k);
  }

  lemma Fewer(keys: set<Key>, m: set<Key>, k: Key)
    requires k in keys && k !in m
    ensures |keys - (m + {k})| < |keys - m|
  {
    assert keys - m == (keys - (m + {k})) + {k};
  }

  lemma GreedyNext(keys: set<Key>, prio: map<Key, int>, deps: Deps, order: seq<Key>, k: Key)
    requires keys <= deps.Keys && keys <= prio.Keys && Greedy(keys, prio, deps, order)
    requires LeastOf(prio, Ready(keys, deps, Members(order)), k)
    ensures Greedy(keys, prio, deps, order + [k])
  {
    hide LeastOf;
    var o := order + [k];
    forall i | 0 <= i < |o| ensures LeastOf(prio, Ready(keys, deps, Members(o[..i])), o[i]) {
      if i < |order| {
        assert o[..i] == order[..i];
      } else {
        assert o[..i] == order;
      }
    }
  }

  /** If the heap runs empty too early, the remaining tests wait for each other. */
  lemma EarlyEnd(keys: set<Key>, deps: Deps, done: set<Key>) returns (c: seq<Key>)
    requires done <= keys <= deps.Keys && Ready(keys, deps, done) == {} && done != keys && forall k :: k in keys ==>
               deps[k] <= keys
    ensures IsCycle(keys, deps, c)
  {
    var s := keys - done;
    forall k | k in s ensures Waits(deps, s, k) {
      assert k !in Ready(keys, deps, done);
      var d :| d in deps[k] && d !in done;
      assert d in s;
    }
    assert keys == done + s;
    c := StuckCycle(keys, deps, s);
  }

  lemma CompleteOrder(keys: seq<Key>, order: seq<Key>)
    requires Distinct(keys) && Distinct(order) && Members(order) <= Members(keys)
    ensures |order| <= |keys| && (|order| == |keys| <==> Members(order) == Members(keys))
    ensures |order| == |keys| ==> multiset(order) == multiset(keys)
  {
    SizeIs(keys);
    SizeIs(order);
    SubsetSize(Members(order), Members(keys));
    if |order| == |keys| {
      forall k: Key ensures multiset(order)[k] == multiset(keys)[k] {
        Once(order, k);
        Once(keys, k);
        assert k in Members(order) <==> k in Members(keys);
      }
    }
  }

  lemma SubsetSize(a: set<Key>, b: set<Key>)
    requires a <= b
    ensures |a| <= |b| && (|a| == |b| ==> a == b)
  {
    assert b == a + (b - a);
    assert |b| == |a| + |b - a|;
  }

  lemma {:induction false} SizeIs(ks: seq<Key>)
    requires Distinct(ks)
    ensures |Members(ks)| == |ks|
  {
    if ks != [] {
      var n := |ks| - 1;
      SizeIs(ks[..n]);
      assert Members(ks) == Members(ks[..n]) + {ks[n]};
    }
  }

  lemma {:induction false} Once(ks: seq<Key>, k: Key)
    requires Distinct(ks)
    ensures multiset(ks)[k] == if k in ks then 1 else 0
  {
    if ks != [] {
      var n := |ks| - 1;
      Once(ks[..n], k);
      assert ks == ks[..n] + [ks[n]];
    }
  }

  /** The tests that wait for nothing. */
  method Parentless(keys: seq<Key>, ghost deps: Deps, parents: map<Key, int>) returns (heap: set<Key>)
    requires Members(keys) <= deps.Keys && parents.Keys == Members(keys) && forall k :: k in parents ==>
               parents[k] == |deps[k]|
    ensures CountsOk(Members(keys), deps, {}, parents, heap)
  {
    hide CountsOk, Ready;
    heap := {};
    for i := 0 to |keys|
      invariant forall k :: k in heap <==> k in keys[..i] && parents[k] == 0
    {
      assert keys[i] in Members(keys);
      if parents[keys[i]] == 0 {
        heap := heap + {keys[i]};
      }
    }
    assert keys[..|keys|] == keys;
    ParentlessOk(keys, deps, parents, heap);
  }

  lemma ParentlessOk(keys: seq<Key>, deps: Deps, parents: map<Key, int>, heap: set<Key>)
    requires Members(keys) <= deps.Keys && parents.Keys == Members(keys) && forall k :: k in parents ==>
               parents[k] == |deps[k]|
    requires forall k :: k in heap <==> k in keys && parents[k] == 0
    ensures CountsOk(Members(keys), deps, {}, parents, heap)
  {
    forall k | k in Members(keys) ensures parents[k] == |deps[k] - {}| && (parents[k] == 0 <==> deps[k] <= {}) {
      assert deps[k] - {} == deps[k];
      assert deps[k] == {} <==> deps[k] <= {};
    }
    assert heap == Ready(Members(keys), deps, {});
  }

  lemma StartOk(keys: set<Key>, prio: map<Key, int>, deps: Deps)
    requires keys <= deps.Keys && keys <= prio.Keys
    ensures Progress(keys, prio, deps, []) && Members([]) == {}
  {
  }

  lemma HeapKeys(keys: set<Key>, deps: Deps, done: set<Key>, parents: map<Key, int>, heap: set<Key>)
    requires keys <= deps.Keys && CountsOk(keys, deps, done, parents, heap)
    ensures heap == Ready(keys, deps, done) && heap <= keys && heap !! done
  {
  }

  lemma LeastIn(prio: map<Key, int>, ks: set<Key>, k: Key)
    requires ks <= prio.Keys && LeastOf(prio, ks, k)
    ensures k in ks && (ks - {k}) + {k} == ks
  {
  }

  lemma TheKids(keys: set<Key>, deps: Deps, children: Deps, k: Key)
    requires keys <= deps.Keys && ChildrenOk(keys, deps, children)
    ensures forall s :: s in (if k in children then children[k] else {}) <==> s in keys && k in deps[s]
  {
  }

  lemma Respects(keys: set<Key>, prio: map<Key, int>, deps: Deps, order: seq<Key>)
    requires keys <= deps.Keys && keys <= prio.Keys && Greedy(keys, prio, deps, order) && Members(order) <= keys
    ensures forall i :: 0 <= i < |order| ==> order[i] in deps
    ensures forall i, d :: 0 <= i < |order| && d in deps[order[i]] ==> d in order[..i]
  {
    forall i | 0 <= i < |order| ensures order[i] in deps && forall d :: d in deps[order[i]] ==> d in order[..i] {
      assert LeastOf(prio, Ready(keys, deps, Members(order[..i])), order[i]);
    }
  }

  /** Of two tests that can both run, the one with the smaller number runs first, and with equal numbers the one
      with the smaller name. */
  lemma FirstIsLeast(keys: set<Key>, prio: map<Key, int>, deps: Deps, order: seq<Key>, i: nat, j: nat)
    requires keys <= deps.Keys && keys <= prio.Keys && Greedy(keys, prio, deps, order) && Members(order) <= keys
    requires i < j < |order| && Distinct(order) && order[j] in deps
             && forall d :: d in deps[order[j]] ==> d in order[..i]
    ensures order[i] in prio && order[j] in prio && prio[order[i]] <= prio[order[j]]
    ensures prio[order[i]] == prio[order[j]] ==>
              exists n :: 0 <= n <= |order[i]| && n < |order[j]| && order[i][..n] == order[j][..n]
                          && (n == |order[i]| || order[i][n] < order[j][n])
  {
    var a, b := order[i], order[j];
    assert LeastOf(prio, Ready(keys, deps, Members(order[..i])), a);
    assert b in Members(order);
    assert b !in order[..i] && b in Ready(keys, deps, Members(order[..i]));
    assert Before(prio, a, b) && a != b;
    if prio[a] == prio[b] { LexAt(a, b); }
  }

  lemma FirstsAreLeast(keys: set<Key>, prio: map<Key, int>, deps: Deps, order: seq<Key>)
    requires keys <= deps.Keys && keys <= prio.Keys && Greedy(keys, prio, deps, order) && Members(order) <= keys
    requires Distinct(order)
    ensures forall i :: 0 <= i < |order| ==> order[i] in deps && order[i] in prio
    ensures forall i, j :: 0 <= i < j < |order| && (forall d :: d in deps[order[j]] ==> d in order[..i]) ==>
              var a, b := order[i], order[j];
              && prio[a] <= prio[b]
              && (prio[a] == prio[b] ==>
                    exists n :: 0 <= n <= |a| && n < |b| && a[..n] == b[..n] && (n == |a| || a[n] < b[n]))
  {
    forall i | 0 <= i < |order| ensures order[i] in deps && order[i] in prio {
      assert order[i] in Members(order);
    }
    hide Greedy, Members, Distinct;
    forall i, j | 0 <= i < j < |order| && (forall d :: d in deps[order[j]] ==> d in order[..i])
      ensures prio[order[i]] <= prio[order[j]]
      ensures prio[order[i]] == prio[order[j]] ==>
                exists n :: 0 <= n <= |order[i]| && n < |order[j]| && order[i][..n] == order[j][..n]
                            && (n == |order[i]| || order[i][n] < order[j][n])
    {
      FirstIsLeast(keys, prio, deps, order, i, j);
    }
  }

  /** A test that did not run waits for another one that did not run. */
  lemma RestWaits(keys: set<Key>, deps: Deps, order: seq<Key>)
    requires keys <= deps.Keys && Ready(keys, deps, Members(order)) == {}
    ensures forall k :: k in keys && k !in order ==> exists d :: d in deps[k] && d !in order
  {
    forall k | k in keys && k !in order ensures exists d :: d in deps[k] && d !in order {
      assert k !in Ready(keys, deps, Members(order));
    }
  }

  lemma Acyclic(keys: set<Key>, prio: map<Key, int>, deps: Deps, order: seq<Key>)
    requires keys <= deps.Keys && keys <= prio.Keys && Greedy(keys, prio, deps, order) && Members(order) == keys
    ensures forall c :: !IsCycle(keys, deps, c)
  {
    forall c ensures !IsCycle(keys, deps, c) {
      if IsCycle(keys, deps, c) {
        assert c[0] in Members(order) && order[..|order|] == order;
        NoCycle(keys, prio, deps, order, c, |order|);
        assert false;
      }
    }
  }

  /** What the end of the run says about the dependencies. */
  lemma Verdict(keys: seq<Key>, prio: map<Key, int>, deps: Deps, order: seq<Key>)
    requires Distinct(keys) && Members(keys) <= deps.Keys && Members(keys) <= prio.Keys
    requires Progress(Members(keys), prio, deps, order) && Ready(Members(keys), deps, Members(order)) == {}
    ensures |order| == |keys| ==> multiset(order) == multiset(keys)
    ensures (forall k :: k in keys ==> deps[k] <= Members(keys)) ==>
              (|order| == |keys| <==> forall c :: !IsCycle(Members(keys), deps, c))
  {
    hide Greedy, Ready, Distinct, Closed, IsCycle;
    CompleteOrder(keys, order);
    var all := Members(keys);
    if |order| == |keys| {
      Acyclic(all, prio, deps, order);
    } else if forall k :: k in keys ==> deps[k] <= all {
      var c := EarlyEnd(all, deps, Members(order));
    }
  }

  /** Puts out tests as long as one can run. */
  method RunAll(keys: seq<Key>, prio: map<Key, int>, deps: Deps) returns (order: seq<Key>)
    requires Members(keys) <= deps.Keys && Members(keys) <= prio.Keys
    ensures Progress(Members(keys), prio, deps, order) && Ready(Members(keys), deps, Members(order)) == {}
  {
    hide Greedy, Ready, ChildrenOk, Distinct, Closed, CountsOk, LeastOf, IsCycle, Members, Progress;
    var children, parents := BuildGraph(keys, deps);
    ghost var all := Members(keys);
    var heap := Parentless(keys, deps, parents);
    order := [];
    StartOk(all, prio, deps);
    while heap != {}
      invariant Progress(all, prio, deps, order) && CountsOk(all, deps, Members(order), parents, heap)
      decreases |all - Members(order)|
    {
      HeapKeys(all, deps, Members(order), parents, heap);
      var k := PopLeast(heap, prio);
      LeastIn(prio, heap, k);
      heap := heap - {k};
      ProgressNext(all, prio, deps, order, k);
      ProgressClosed(all, prio, deps, order);
      TheKids(all, deps, children, k);
      parents, heap := Finish(k, if k in children then children[k] else {}, parents, heap, all, deps, Members(order));
      order := order + [k];
    }
    HeapKeys(all, deps, Members(order), parents, heap);
  }

  /** Sorts the tests. When every dependency is a test, it fails exactly if there is a cycle. */
  method Sort(keys: seq<Key>, prio: map<Key, int>, deps: Deps) returns (ok: bool, order: seq<Key>)
    requires Distinct(keys) && Members(keys) <= deps.Keys && Members(keys) <= prio.Keys
    ensures Greedy(Members(keys), prio, deps, order) && Distinct(order) && Members(order) <= Members(keys)
    ensures forall i, d :: 0 <= i < |order| && d in deps[order[i]] ==> d in order[..i]
    ensures forall i, j :: 0 <= i < j < |order| && (forall d :: d in deps[order[j]] ==> d in order[..i]) ==>
              var a, b := order[i], order[j];
              && prio[a] <= prio[b]
              && (prio[a] == prio[b] ==>
                    exists n :: 0 <= n <= |a| && n < |b| && a[..n] == b[..n] && (n == |a| || a[n] < b[n]))
    ensures forall k :: k in keys && k !in order ==> exists d :: d in deps[k] && d !in order
    ensures ok ==> multiset(order) == multiset(keys)
    ensures (forall k :: k in keys ==> deps[k] <= Members(keys)) ==>
              (ok <==> forall c :: !IsCycle(Members(keys), deps, c))
  {
    hide Greedy, Ready, Distinct, Closed, IsCycle, Members, Progress;
    order := RunAll(keys, prio, deps);
    ok := |keys| == |order|;
    ghost var all := Members(keys);
    ProgressClosed(all, prio, deps, order);
    Respects(all, prio, deps, order);
    FirstsAreLeast(all, prio, deps, order);
    RestWaits(all, deps, order);
    InMembers(keys);
    Verdict(keys, prio, deps, order);
  }

  lemma InMembers(keys: seq<Key>)
    ensures forall k :: k in keys <==> k in Members(keys)
  {
  }

  lemma ProgressClosed(keys: set<Key>, prio: map<Key, int>, deps: Deps, order: seq<Key>)
    requires keys <= deps.Keys && keys <= prio.Keys && Progress(keys, prio, deps, order)
    ensures Closed(deps, Members(order)) && Greedy(keys, prio, deps, order) && Distinct(order) && Members(order) <= keys
  {
  }
}
