// Kahn's topological sort of the packages to emit: imports first, in a reproducible order.
module TopoSort {
  import opened Wrappers
  import opened Ordering

  type Package = Text

  // The packages to emit and what each of them imports.
  datatype Graph = Graph(emit: set<Package>, imports: map<Package, seq<Package>>) {

    // Every package to emit was scanned for imports, and a scan lists no import twice.
    predicate Valid()
    {
      emit <= imports.Keys && forall p <- emit :: Distinct(imports[p])
    }

    // The imports of a package among the packages to emit, itself excepted.
    function Deps(p: Package): set<Package>
    {
      if p in emit && p in imports then set q | q in imports[p] && q in emit && q != p else {}
    }

    function Dependents(q: Package): set<Package>
    {
      set p | p in emit && q in Deps(p)
    }

    ghost predicate HasCycle()
    {
      exists cycle :: IsCycle(cycle)
    }

    // Each package imports the next, and the last imports the first.
    predicate IsCycle(cycle: seq<Package>)
    {
      |cycle| > 0 && forall i :: 0 <= i < |cycle| ==> cycle[(i + 1) % |cycle|] in Deps(cycle[i])
    }

    // The packages whose imports are all done.
    predicate Ready(p: Package, done: set<Package>)
    {
      Deps(p) <= done
    }

    // Every package of an order comes after all its imports.
    predicate InOrderOfImports(order: seq<Package>)
    {
      forall i :: 0 <= i < |order| ==> Ready(order[i], Elements(order[..i]))
    }

    // Done packages are in order, and the queue holds exactly the others that are ready.
    predicate Invariant(queue: seq<Package>, result: seq<Package>)
    {
      && Distinct(result + queue)
      && Elements(result + queue) <= emit
      && InOrderOfImports(result)
      && (forall p <- emit :: Ready(p, Elements(result)) <==> p in result + queue)
    }
  }

  function ReadyAmong(g: Graph, candidates: seq<Package>, done: set<Package>): seq<Package>
  {
    if |candidates| == 0 then []
    else
      (if g.Ready(candidates[0], done) then [candidates[0]] else []) + ReadyAmong(g, candidates[1..], done)
  }

  // The queue after its first package is done.
  ghost function NextQueue(g: Graph, queue: seq<Package>, result: seq<Package>): seq<Package>
    requires |queue| > 0
  {
    queue[1..] + ReadyAmong(g, InOrder(g.Dependents(queue[0])), Elements(result) + {queue[0]})
  }

  lemma {:induction false} ReadyAmongElements(g: Graph, candidates: seq<Package>, done: set<Package>)
    requires Distinct(candidates)
    ensures var r := ReadyAmong(g, candidates, done);
            Distinct(r) && forall p :: p in r <==> p in candidates && g.Ready(p, done)
  {
    if |candidates| > 0 {
      ReadyAmongElements(g, candidates[1..], done);
      assert candidates == [candidates[0]] + candidates[1..];
    }
  }

  lemma IncreasingDistinct(s: seq<Package>)
    requires Increasing(s)
    ensures Distinct(s)
  {
    forall i, j | 0 <= i < j < |s| ensures s[i] != s[j] { LessIsTotal(s[i], s[j]); }
  }

  lemma DistinctAppend(s: seq<Package>, t: seq<Package>)
    requires Distinct(s) && Distinct(t) && forall x :: x in t ==> x !in s
    ensures Distinct(s + t)
  {
    forall i, j | 0 <= i < j < |s + t| ensures (s + t)[i] != (s + t)[j] {
      if j < |s| {
      } else if i < |s| {
        assert (s + t)[j] in t;
      }
    }
  }

  lemma OrderSnoc(g: Graph, result: seq<Package>, pkg: Package)
    requires g.InOrderOfImports(result) && g.Ready(pkg, Elements(result))
    ensures g.InOrderOfImports(result + [pkg])
  {
    var r := result + [pkg];
    forall i | 0 <= i < |r| ensures g.Ready(r[i], Elements(r[..i])) {
      assert r[..i] == result[..i];
    }
  }

  // The packages that become ready with pkg were not ready before.
  lemma NewlyReady(g: Graph, pkg: Package, done: set<Package>)
    requires pkg !in done
    ensures var added := ReadyAmong(g, InOrder(g.Dependents(pkg)), done + {pkg});
            && Distinct(added)
            && forall p :: p in added <==> p in g.emit && g.Ready(p, done + {pkg}) && !g.Ready(p, done)
  {
    hide Less, Graph.Deps;
    var candidates := InOrder(g.Dependents(pkg));
    IncreasingDistinct(candidates);
    ReadyAmongElements(g, candidates, done + {pkg});
    forall p ensures p in candidates <==> p in g.emit && pkg in g.Deps(p) {
      assert p in candidates <==> p in Elements(candidates);
    }
  }

  // One round of the outer loop keeps the invariant.
  lemma RoundKeepsInvariant(g: Graph, queue: seq<Package>, result: seq<Package>)
    requires |queue| > 0 && g.Invariant(queue, result)
    ensures g.Invariant(NextQueue(g, queue, result), result + [queue[0]])
    ensures |result| < |g.emit|
  {
    hide Less, Distinct, Graph.Deps, Graph.InOrderOfImports, Graph.Ready;
    var pkg, done := queue[0], Elements(result);
    var added := ReadyAmong(g, InOrder(g.Dependents(pkg)), done + {pkg});
    var all := result + queue;
    HeadIsNew(result, queue);
    NewlyReady(g, pkg, done);
    DistinctAppend(all, added);
    OrderSnoc(g, result, pkg);
    var result', queue' := result + [pkg], NextQueue(g, queue, result);
    assert Elements(result') == done + {pkg};
    Regroup(result, queue, added);
    ReadyGrows(g, done, done + {pkg});
    DistinctCount(all, g.emit);
  }

  lemma HeadIsNew(s: seq<Package>, t: seq<Package>)
    requires Distinct(s + t) && |t| > 0
    ensures t[0] in s + t && t[0] in Elements(s + t) && t[0] !in Elements(s)
  {
    assert (s + t)[|s|] == t[0];
    forall i | 0 <= i < |s| ensures s[i] != t[0] {
      assert (s + t)[i] == s[i];
    }
  }

  lemma Regroup(s: seq<Package>, t: seq<Package>, u: seq<Package>)
    requires |t| > 0
    ensures (s + [t[0]]) + (t[1..] + u) == (s + t) + u
  {
    assert t == [t[0]] + t[1..];
  }

  lemma ReadyGrows(g: Graph, done: set<Package>, more: set<Package>)
    requires done <= more
    ensures forall p :: g.Ready(p, done) ==> g.Ready(p, more)
  {
  }

  // ---- the order, as a function of the graph alone ----

  ghost function OrderFrom(g: Graph, queue: seq<Package>, result: seq<Package>): (r: seq<Package>)
    requires g.Invariant(queue, result)
    ensures g.Invariant([], r)
    decreases |g.emit| - |result|
  {
    if |queue| == 0 then
      assert queue == [];
      result
    else
      RoundKeepsInvariant(g, queue, result);
      OrderFrom(g, NextQueue(g, queue, result), result + [queue[0]])
  }

  ghost function FirstQueue(g: Graph): (queue: seq<Package>)
    ensures g.Invariant(queue, [])
  {
    var queue := InOrder(set p | p in g.emit && g.Deps(p) == {});
    IncreasingDistinct(queue);
    assert [] + queue == queue;
    assert forall p :: p in queue <==> p in Elements(queue);
    queue
  }

  ghost function Order(g: Graph): (r: seq<Package>)
    ensures g.Invariant([], r)
  {
    OrderFrom(g, FirstQueue(g), [])
  }

  // ---- cycles ----

  // A package on a cycle never becomes ready.
  lemma {:induction false} NotOnCycle(g: Graph, order: seq<Package>, k: nat, cycle: seq<Package>)
    requires g.InOrderOfImports(order) && g.IsCycle(cycle) && k < |order|
    ensures order[k] !in cycle
    decreases k
  {
    if order[k] in cycle {
      var i :| 0 <= i < |cycle| && cycle[i] == order[k];
      var next := cycle[(i + 1) % |cycle|];
      assert next in g.Deps(order[k]) && next in Elements(order[..k]);
      var j :| 0 <= j < k && order[j] == next;
      NotOnCycle(g, order, j, cycle);
    }
  }

  // n steps along imports that stay among the given packages.
  ghost function Walk(g: Graph, stuck: set<Package>, p: Package, n: nat): (w: seq<Package>)
    requires p in stuck && forall x <- stuck :: g.Deps(x) * stuck != {}
    ensures |w| == n + 1 && w[0] == p && Elements(w) <= stuck
    ensures forall i :: 0 <= i < n ==> w[i + 1] in g.Deps(w[i])
    decreases n
  {
    if n == 0 then [p]
    else
      var q :| q in g.Deps(p) * stuck;
      [p] + Walk(g, stuck, q, n - 1)
  }

  // Packages that all wait for each other hold a cycle.
  lemma StuckHasCycle(g: Graph, stuck: set<Package>)
    requires stuck != {} && forall x <- stuck :: g.Deps(x) * stuck != {}
    ensures g.HasCycle()
  {
    hide Graph.Deps;
    var p :| p in stuck;
    var w := Walk(g, stuck, p, |stuck|);
    if Distinct(w) {
      DistinctCount(w, stuck);
    }
    var i, j :| 0 <= i < j < |w| && w[i] == w[j];
    WalkLoops(g, w, i, j);
  }

  lemma WalkLoops(g: Graph, w: seq<Package>, i: nat, j: nat)
    requires i < j < |w| && w[i] == w[j]
    requires forall k :: 0 <= k < |w| - 1 ==> w[k + 1] in g.Deps(w[k])
    ensures g.IsCycle(w[i..j])
  {
    hide Graph.Deps;
    var cycle := w[i..j];
    forall k | 0 <= k < |cycle| ensures cycle[(k + 1) % |cycle|] in g.Deps(cycle[k]) {
      assert w[i + k + 1] in g.Deps(w[i + k]);
      NextIndex(k, |cycle|);
    }
  }

  lemma NextIndex(k: nat, n: nat)
    requires k < n
    ensures (k + 1) % n == if k + 1 == n then 0 else k + 1
  {
  }

  // What is left when nothing more is ready.
  function Left(g: Graph, order: seq<Package>): set<Package>
  {
    g.emit - Elements(order)
  }

  lemma NothingLeft(g: Graph, order: seq<Package>)
    requires Elements(order) <= g.emit
    ensures Left(g, order) == {} <==> Elements(order) == g.emit
  {
    if p :| p in g.emit && p !in Elements(order) {
      assert p in Left(g, order);
    }
  }

  lemma LeftWait(g: Graph, order: seq<Package>)
    requires g.Invariant([], order)
    ensures forall p <- Left(g, order) :: g.Deps(p) * Left(g, order) != {}
  {
    hide Less, Distinct;
    assert order + [] == order;
    forall p | p in Left(g, order) ensures g.Deps(p) * Left(g, order) != {} {
      assert !g.Ready(p, Elements(order));
      var q :| q in g.Deps(p) && q !in Elements(order);
      assert q in g.Deps(p) * Left(g, order);
    }
  }

  lemma CycleIsLeft(g: Graph, order: seq<Package>, cycle: seq<Package>)
    requires g.InOrderOfImports(order) && g.IsCycle(cycle)
    ensures Elements(cycle) <= Left(g, order) && Left(g, order) != {}
  {
    forall k | 0 <= k < |order| ensures order[k] !in cycle { NotOnCycle(g, order, k, cycle); }
    forall i | 0 <= i < |cycle| ensures cycle[i] in g.emit {
      assert cycle[(i + 1) % |cycle|] in g.Deps(cycle[i]);
    }
    assert cycle[0] in Left(g, order);
  }

  // The order has every package exactly when no imports go round in a cycle. Otherwise each package
  // left imports another one left, and all cycles are among those left.
  lemma OrderIsComplete(g: Graph, order: seq<Package>)
    requires g.Invariant([], order)
    ensures |order| == |g.emit| <==> !g.HasCycle()
    ensures |order| == |g.emit| <==> Left(g, order) == {}
    ensures forall p <- Left(g, order) :: g.Deps(p) * Left(g, order) != {}
    ensures forall cycle | g.IsCycle(cycle) :: Elements(cycle) <= Left(g, order)
  {
    hide Less, Distinct, Graph.Deps, Graph.Ready, Graph.IsCycle;
    assert order + [] == order;
    DistinctCount(order, g.emit);
    LeftWait(g, order);
    forall cycle | g.IsCycle(cycle) ensures Elements(cycle) <= Left(g, order) { CycleIsLeft(g, order, cycle); }
    NothingLeft(g, order);
    if g.HasCycle() {
      var cycle :| g.IsCycle(cycle);
      CycleIsLeft(g, order, cycle);
      assert Left(g, order) != {};
    }
    if Left(g, order) != {} {
      StuckHasCycle(g, Left(g, order));
    }
  }

  // ---- the sort ----

  // Counts and lists of dependents once the given packages are scanned.
  predicate Counted(g: Graph, scanned: set<Package>, inDegree: map<Package, int>, dependents: map<Package, seq<Package>>)
  {
    && inDegree.Keys == g.emit && dependents.Keys == g.emit
    && (forall p <- g.emit :: inDegree[p] == if p in scanned then |g.Deps(p)| else 0)
    && (forall q <- g.emit :: Distinct(dependents[q]) && Elements(dependents[q]) == g.Dependents(q) * scanned)
  }

  // Counts and lists while the imports of pkg are scanned: so far the given ones were found.
  predicate Found(g: Graph, pkg: Package, deps: set<Package>, inDegree0: map<Package, int>, inDegree: map<Package, int>,
                  dependents0: map<Package, seq<Package>>, dependents: map<Package, seq<Package>>)
  {
    && inDegree.Keys == inDegree0.Keys == g.emit && dependents.Keys == dependents0.Keys == g.emit
    && (forall p <- g.emit :: inDegree[p] == inDegree0[p] + if p == pkg then |deps| else 0)
    && (forall q <- g.emit :: dependents[q] == if q in deps then dependents0[q] + [pkg] else dependents0[q])
  }

  lemma FoundNothing(g: Graph, pkg: Package, scanned: set<Package>, inDegree0: map<Package, int>,
                     dependents0: map<Package, seq<Package>>)
    requires Counted(g, scanned, inDegree0, dependents0)
    ensures inDegree0.Keys == dependents0.Keys == g.emit
    ensures Found(g, pkg, {}, inDegree0, inDegree0, dependents0, dependents0)
  {
  }

  lemma OneMoreDep(seen: set<Package>, emit: set<Package>, pkg: Package, imp: Package)
    ensures (seen + {imp}) * emit - {pkg}
         == if imp in emit && imp != pkg then (seen * emit - {pkg}) + {imp} else seen * emit - {pkg}
  {
  }

  lemma FoundOneMore(g: Graph, pkg: Package, deps: set<Package>, inDegree0: map<Package, int>,
                     inDegree: map<Package, int>, dependents0: map<Package, seq<Package>>,
                     dependents: map<Package, seq<Package>>, imp: Package)
    requires Found(g, pkg, deps, inDegree0, inDegree, dependents0, dependents)
    requires pkg in g.emit && imp in g.emit && imp !in deps
    ensures Found(g, pkg, deps + {imp}, inDegree0, inDegree[pkg := inDegree[pkg] + 1],
                  dependents0, dependents[imp := dependents[imp] + [pkg]])
  {
  }

  lemma FoundAll(g: Graph, pkg: Package, scanned: set<Package>, inDegree0: map<Package, int>,
                 inDegree: map<Package, int>, dependents0: map<Package, seq<Package>>,
                 dependents: map<Package, seq<Package>>)
    requires pkg in g.emit && pkg !in scanned && Counted(g, scanned, inDegree0, dependents0)
    requires Found(g, pkg, g.Deps(pkg), inDegree0, inDegree, dependents0, dependents)
    ensures Counted(g, scanned + {pkg}, inDegree, dependents)
  {
    hide Distinct, Graph.Deps, Graph.Dependents;
    forall q | q in g.emit
      ensures Distinct(dependents[q]) && Elements(dependents[q]) == g.Dependents(q) * (scanned + {pkg})
    {
      ScannedDependents(g, pkg, scanned, q, dependents0[q]);
    }
  }

  method ScanImports(g: Graph, pkg: Package, ghost scanned: set<Package>, inDegree0: map<Package, int>,
                     dependents0: map<Package, seq<Package>>)
    returns (inDegree: map<Package, int>, dependents: map<Package, seq<Package>>)
    requires g.Valid() && pkg in g.emit && pkg !in scanned
    requires Counted(g, scanned, inDegree0, dependents0)
    ensures Counted(g, scanned + {pkg}, inDegree, dependents)
  {
    hide Distinct, Elements, Found, Counted, Graph.Deps, Graph.Dependents;
    NoElements();
    FoundNothing(g, pkg, scanned, inDegree0, dependents0);
    inDegree, dependents := inDegree0, dependents0;
    var list := g.imports[pkg];
    ghost var deps: set<Package> := {};
    for i := 0 to |list|
      invariant deps == Elements(list[..i]) * g.emit - {pkg}
      invariant Found(g, pkg, deps, inDegree0, inDegree, dependents0, dependents)
      invariant inDegree.Keys == dependents.Keys == g.emit
    {
      var imp := list[i];
      NotSeen(list, i);
      ElementsSnoc(list[..i], imp);
      OneMoreDep(Elements(list[..i]), g.emit, pkg, imp);
      if imp in g.emit && imp != pkg {
        FoundOneMore(g, pkg, deps, inDegree0, inDegree, dependents0, dependents, imp);
        inDegree := inDegree[pkg := inDegree[pkg] + 1];
        dependents := dependents[imp := dependents[imp] + [pkg]];
        deps := deps + {imp};
      }
    }
    assert list[..|list|] == list;
    DepsScanned(g, pkg);
    FoundAll(g, pkg, scanned, inDegree0, inDegree, dependents0, dependents);
  }

  lemma DepsScanned(g: Graph, pkg: Package)
    requires g.Valid() && pkg in g.emit
    ensures Elements(g.imports[pkg]) * g.emit - {pkg} == g.Deps(pkg)
  {
  }

  lemma ScannedDependents(g: Graph, pkg: Package, scanned: set<Package>, q: Package, list: seq<Package>)
    requires pkg in g.emit && pkg !in scanned && Distinct(list) && Elements(list) == g.Dependents(q) * scanned
    ensures if q in g.Deps(pkg) then
              Distinct(list + [pkg]) && Elements(list + [pkg]) == g.Dependents(q) * (scanned + {pkg})
            else Elements(list) == g.Dependents(q) * (scanned + {pkg})
  {
    assert pkg !in Elements(list);
    DistinctAppend(list, [pkg]);
    ElementsSnoc(list, pkg);
  }

  lemma NothingCounted(g: Graph, inDegree: map<Package, int>, dependents: map<Package, seq<Package>>)
    requires inDegree == map p | p in g.emit :: 0
    requires dependents == map p | p in g.emit :: []
    ensures Counted(g, {}, inDegree, dependents) && g.emit - g.emit == {}
  {
  }

  lemma OneLess(all: set<Package>, rest: set<Package>, pkg: Package)
    requires pkg in rest && rest <= all
    ensures all - rest + {pkg} == all - (rest - {pkg}) && |rest - {pkg}| < |rest|
  {
  }

  // The packages are scanned in whatever order the set gives them.
  method Scan(g: Graph) returns (inDegree: map<Package, int>, dependents: map<Package, seq<Package>>)
    requires g.Valid()
    ensures Counted(g, g.emit, inDegree, dependents)
  {
    hide Counted, Graph.Deps, Graph.Dependents;
    inDegree := map p | p in g.emit :: 0;
    dependents := map p | p in g.emit :: [];
    NothingCounted(g, inDegree, dependents);
    var rest := g.emit;
    while rest != {}
      invariant rest <= g.emit && Counted(g, g.emit - rest, inDegree, dependents)
      decreases |rest|
    {
      var pkg :| pkg in rest;
      inDegree, dependents := ScanImports(g, pkg, g.emit - rest, inDegree, dependents);
      OneLess(g.emit, rest, pkg);
      rest := rest - {pkg};
    }
    assert g.emit - rest == g.emit;
  }

  method ListOf(packages: set<Package>) returns (list: seq<Package>)
    ensures Distinct(list) && Elements(list) == packages
  {
    list := [];
    var rest := packages;
    while rest != {}
      invariant rest <= packages && Distinct(list) && Elements(list) == packages - rest
      decreases |rest|
    {
      var pkg :| pkg in rest;
      assert pkg !in Elements(list);
      ElementsSnoc(list, pkg);
      list := list + [pkg];
      rest := rest - {pkg};
    }
  }

  lemma {:induction false} ReadyAmongSnoc(g: Graph, candidates: seq<Package>, p: Package, done: set<Package>)
    ensures ReadyAmong(g, candidates + [p], done)
         == ReadyAmong(g, candidates, done) + if g.Ready(p, done) then [p] else []
  {
    hide Graph.Ready;
    if |candidates| == 0 {
      assert candidates + [p] == [p] && [p][1..] == [];
    } else {
      assert (candidates + [p])[1..] == candidates[1..] + [p];
      ReadyAmongSnoc(g, candidates[1..], p, done);
    }
  }

  lemma QueuedSnoc(g: Graph, queue: seq<Package>, candidates: seq<Package>, p: Package, done: set<Package>)
    ensures queue + ReadyAmong(g, candidates + [p], done)
         == if g.Ready(p, done) then queue + ReadyAmong(g, candidates, done) + [p]
            else queue + ReadyAmong(g, candidates, done)
  {
    hide Graph.Ready;
    ReadyAmongSnoc(g, candidates, p, done);
    var r := ReadyAmong(g, candidates, done);
    assert r + [] == r && queue + (r + [p]) == (queue + r) + [p];
  }

  // What is left to do before a package is ready is what its counter says.
  predicate Counts(g: Graph, done: set<Package>, inDegree: map<Package, int>)
  {
    inDegree.Keys == g.emit && forall p <- g.emit :: inDegree[p] == |g.Deps(p) - done|
  }

  // The counters of all dependents of a finished package go down, and those that reach zero are queued.
  method Finish(g: Graph, pkg: Package, ghost done: set<Package>, queue0: seq<Package>, inDegree0: map<Package, int>,
                list: seq<Package>)
    returns (queue: seq<Package>, inDegree: map<Package, int>)
    requires Counts(g, done, inDegree0) && pkg !in done
    requires Distinct(list) && Elements(list) == g.Dependents(pkg)
    ensures Counts(g, done + {pkg}, inDegree)
    ensures queue == queue0 + ReadyAmong(g, InOrder(g.Dependents(pkg)), done + {pkg})
  {
    hide Less, Distinct, Increasing, Sorted, InOrder, Elements, ReadyAmong, Graph.Deps, Graph.Dependents, Graph.Ready;
    queue, inDegree := queue0, inDegree0;
    var sorted := Sorted(list);
    SortedIsInOrder(list);
    IncreasingDistinct(sorted);
    NoElements();
    assert queue0 + ReadyAmong(g, sorted[..0], done + {pkg}) == queue0 by { NoneReady(g, done + {pkg}); }
    ghost var seen: set<Package> := {};
    for i := 0 to |sorted|
      invariant seen == Elements(sorted[..i]) && inDegree.Keys == g.emit
      invariant forall p <- g.emit :: inDegree[p] == inDegree0[p] - if p in seen then 1 else 0
      invariant queue == queue0 + ReadyAmong(g, sorted[..i], done + {pkg})
    {
      var dep := sorted[i];
      NotSeen(sorted, i);
      ElementsSnoc(sorted[..i], dep);
      DependentMeans(g, dep, pkg);
      seen := seen + {dep};
      inDegree := inDegree[dep := inDegree[dep] - 1];
      CountedDown(g, dep, done, pkg);
      QueuedSnoc(g, queue0, sorted[..i], dep, done + {pkg});
      if inDegree[dep] == 0 {
        queue := queue + [dep];
      }
    }
    assert sorted[..|sorted|] == sorted;
    CountsAfter(g, done, pkg, inDegree0, inDegree);
  }

  lemma CountsAfter(g: Graph, done: set<Package>, pkg: Package, inDegree0: map<Package, int>,
                    inDegree: map<Package, int>)
    requires Counts(g, done, inDegree0) && pkg !in done
    requires inDegree.Keys == g.emit
    requires forall p <- g.emit :: inDegree[p] == inDegree0[p] - if p in g.Dependents(pkg) then 1 else 0
    ensures Counts(g, done + {pkg}, inDegree)
  {
    hide Graph.Deps, Graph.Ready;
    forall p | p in g.emit ensures inDegree[p] == |g.Deps(p) - (done + {pkg})| {
      if p in g.Dependents(pkg) {
        CountedDown(g, p, done, pkg);
      } else {
        assert g.Deps(p) - (done + {pkg}) == g.Deps(p) - done;
      }
    }
  }

  lemma NoneReady(g: Graph, done: set<Package>)
    ensures ReadyAmong(g, [], done) == []
  {
  }

  lemma DependentMeans(g: Graph, dep: Package, pkg: Package)
    requires dep in g.Dependents(pkg)
    ensures dep in g.emit && pkg in g.Deps(dep)
  {
  }

  lemma CountedDown(g: Graph, p: Package, done: set<Package>, pkg: Package)
    requires pkg in g.Deps(p) && pkg !in done
    ensures |g.Deps(p) - done| - 1 == |g.Deps(p) - (done + {pkg})|
    ensures |g.Deps(p) - (done + {pkg})| == 0 <==> g.Ready(p, done + {pkg})
  {
    var deps := g.Deps(p);
    assert deps - done == deps - (done + {pkg}) + {pkg};
  }

  // The sorted packages, each with its directory.
  predicate Paired(packages: map<Package, string>, names: seq<Package>, result: seq<(Package, string)>)
  {
    && |result| == |names|
    && forall i :: 0 <= i < |names| ==> names[i] in packages && result[i] == (names[i], packages[names[i]])
  }

  lemma PairedNothing(packages: map<Package, string>)
    ensures Paired(packages, [], [])
  {
  }

  lemma PairedSnoc(packages: map<Package, string>, names: seq<Package>, result: seq<(Package, string)>, pkg: Package)
    requires Paired(packages, names, result) && pkg in packages
    ensures Paired(packages, names + [pkg], result + [(pkg, packages[pkg])])
  {
  }

  function Names(result: seq<(Package, string)>): set<Package>
  {
    set x <- result :: x.0
  }

  lemma PairedNames(packages: map<Package, string>, names: seq<Package>, result: seq<(Package, string)>)
    requires Paired(packages, names, result)
    ensures Names(result) == Elements(names) && |result| == |names|
  {
    forall n | n in names ensures n in Names(result) {
      var i :| 0 <= i < |names| && names[i] == n;
      assert result[i] in result && result[i].0 == n;
    }
  }

  lemma LeftNames(g: Graph, names: seq<Package>, result: seq<(Package, string)>)
    requires Names(result) == Elements(names)
    ensures g.emit - Names(result) == Left(g, names)
  {
  }

  lemma HeadOfQueue(g: Graph, queue: seq<Package>, result: seq<Package>)
    requires |queue| > 0 && g.Invariant(queue, result)
    ensures queue[0] in g.emit && queue[0] !in Elements(result)
  {
    HeadIsNew(result, queue);
  }

  // Either every package in an order that depends only on the graph, each after its imports, or the
  // packages that are left because of a cycle.
  method TopologicalSort(packages: map<Package, string>, g: Graph)
    returns (r: Outcome<seq<(Package, string)>, set<Package>>)
    requires g.Valid() && g.emit <= packages.Keys
    ensures r.Ok? <==> !g.HasCycle()
    ensures r.Ok? ==> Paired(packages, Order(g), r.value)
    ensures r.Err? ==> r.error == Left(g, Order(g))
  {
    hide Less, Distinct, Paired, Names, Left, Counts, Counted, Elements, Sorted, Graph.Deps, Graph.Dependents, Graph.Ready, Graph.HasCycle,
      Graph.Invariant, ReadyAmong;
    PairedNothing(packages);
    var inDegree, dependents := Scan(g);
    AllScanned(g, inDegree, dependents);
    var free := ListOf(set p | p in g.emit && inDegree[p] == 0);
    var queue := Sorted(free);
    FirstIsSorted(g, inDegree, free);
    var result: seq<(Package, string)> := [];
    ghost var names: seq<Package> := [];
    NothingDone(g, inDegree);
    while |queue| > 0
      invariant g.Invariant(queue, names) && Counts(g, Elements(names), inDegree)
      invariant OrderFrom(g, queue, names) == Order(g)
      invariant Paired(packages, names, result)
      decreases |g.emit| - |names|
    {
      var pkg := queue[0];
      HeadOfQueue(g, queue, names);
      RoundKeepsInvariant(g, queue, names);
      ElementsSnoc(names, pkg);
      PairedSnoc(packages, names, result, pkg);
      result := result + [(pkg, packages[pkg])];
      queue, inDegree := Finish(g, pkg, Elements(names), queue[1..], inDegree, dependents[pkg]);
      names := names + [pkg];
    }
    assert queue == [] && names == Order(g);
    OrderIsComplete(g, names);
    PairedNames(packages, names, result);
    LeftNames(g, names, result);
    if |result| != |g.emit| { return Err(g.emit - Names(result)); }
    return Ok(result);
  }

  // In a complete order every package stands once, after all its imports.
  lemma OrderIsSorted(g: Graph)
    requires !g.HasCycle()
    ensures Distinct(Order(g)) && Elements(Order(g)) == g.emit && g.InOrderOfImports(Order(g))
  {
    hide Graph.HasCycle, Graph.Ready, Graph.Deps;
    OrderIsComplete(g, Order(g));
    assert Order(g) + [] == Order(g);
    DistinctCount(Order(g), g.emit);
  }

  lemma AllScanned(g: Graph, inDegree: map<Package, int>, dependents: map<Package, seq<Package>>)
    requires Counted(g, g.emit, inDegree, dependents)
    ensures inDegree.Keys == dependents.Keys == g.emit
    ensures forall p <- g.emit :: inDegree[p] == |g.Deps(p)|
    ensures forall q <- g.emit :: Distinct(dependents[q]) && Elements(dependents[q]) == g.Dependents(q)
  {
    forall q | q in g.emit ensures Elements(dependents[q]) == g.Dependents(q) {
      assert g.Dependents(q) * g.emit == g.Dependents(q);
    }
  }

  lemma FirstIsSorted(g: Graph, inDegree: map<Package, int>, free: seq<Package>)
    requires inDegree.Keys == g.emit && forall p <- g.emit :: inDegree[p] == |g.Deps(p)|
    requires Distinct(free) && Elements(free) == set p | p in g.emit && inDegree[p] == 0
    ensures Sorted(free) == FirstQueue(g)
  {
    SortedIsInOrder(free);
    assert Elements(free) == set p | p in g.emit && g.Deps(p) == {};
  }

  lemma NothingDone(g: Graph, inDegree: map<Package, int>)
    requires inDegree.Keys == g.emit && forall p <- g.emit :: inDegree[p] == |g.Deps(p)|
    ensures Counts(g, Elements([]), inDegree)
  {
    forall p | p in g.emit ensures inDegree[p] == |g.Deps(p) - Elements([])| {
      assert g.Deps(p) - Elements([]) == g.Deps(p);
    }
  }
}
