// The order of the topological sort without its queue: packages come in the order in which they become
// ready, and by name where several become ready together.
module TopoOrder {
  import opened Ordering
  import opened TopoSort

  // How many packages of an order are done when p becomes ready.
  ghost function ReadyTime(g: Graph, order: seq<Package>, p: Package): (k: nat)
    requires g.Ready(p, Elements(order))
    ensures k <= |order| && g.Ready(p, Elements(order[..k]))
    ensures forall j :: 0 <= j < k ==> !g.Ready(p, Elements(order[..j]))
  {
    var n := |order|;
    assert order[..n] == order;
    if n > 0 && g.Ready(p, Elements(order[..n - 1])) then
      var k := ReadyTime(g, order[..n - 1], p);
      assert forall j :: 0 <= j <= k ==> order[..n - 1][..j] == order[..j];
      k
    else
      assert forall j :: 0 <= j < n ==> !g.Ready(p, Elements(order[..j])) by { NotReadyBefore(g, order, p); }
      n
  }

  lemma NotReadyBefore(g: Graph, order: seq<Package>, p: Package)
    ensures |order| > 0 && !g.Ready(p, Elements(order[..|order| - 1]))
        ==> forall j :: 0 <= j < |order| ==> !g.Ready(p, Elements(order[..j]))
  {
    if |order| > 0 {
      forall j | 0 <= j < |order| ensures Elements(order[..j]) <= Elements(order[..|order| - 1]) {
        assert order[..|order| - 1][..j] == order[..j];
      }
    }
  }

  lemma ReadyTimeIs(g: Graph, order: seq<Package>, p: Package, k: nat)
    requires g.Ready(p, Elements(order)) && k <= |order| && g.Ready(p, Elements(order[..k]))
    requires forall j :: 0 <= j < k ==> !g.Ready(p, Elements(order[..j]))
    ensures ReadyTime(g, order, p) == k
  {
  }

  // p comes before q: it is ready earlier, or at the same time and its name is less.
  ghost predicate Before(g: Graph, order: seq<Package>, p: Package, q: Package)
    requires g.Ready(p, Elements(order)) && g.Ready(q, Elements(order))
  {
    var s, t := ReadyTime(g, order, p), ReadyTime(g, order, q);
    s < t || (s == t && Less(p, q))
  }

  // All the packages of a list are ready after an order, and stand in the order of their times and names.
  ghost predicate InTurn(g: Graph, order: seq<Package>, list: seq<Package>)
  {
    && (forall p <- list :: g.Ready(p, Elements(order)))
    && forall i, j :: 0 <= i < j < |list| ==> Before(g, order, list[i], list[j])
  }

  // ---- the sort keeps the turns ----

  lemma TimesStay(g: Graph, order: seq<Package>, x: Package, p: Package)
    requires g.Ready(p, Elements(order))
    ensures g.Ready(p, Elements(order + [x])) && ReadyTime(g, order + [x], p) == ReadyTime(g, order, p)
  {
    hide Graph.Ready;
    var k := ReadyTime(g, order, p);
    ElementsSnoc(order, x);
    ReadyGrows(g, Elements(order), Elements(order + [x]));
    assert forall j :: 0 <= j <= k ==> (order + [x])[..j] == order[..j];
    ReadyTimeIs(g, order + [x], p, k);
  }

  lemma NewTime(g: Graph, order: seq<Package>, x: Package, p: Package)
    requires !g.Ready(p, Elements(order)) && g.Ready(p, Elements(order + [x]))
    ensures ReadyTime(g, order + [x], p) == |order| + 1
  {
    hide Graph.Ready;
    var more := order + [x];
    assert more[..|more| - 1] == order && more[..|more|] == more;
    NotReadyBefore(g, more, p);
    ReadyTimeIs(g, more, p, |order| + 1);
  }

  lemma {:induction false} ReadyAmongIncreasing(g: Graph, candidates: seq<Package>, done: set<Package>)
    requires Increasing(candidates)
    ensures Increasing(ReadyAmong(g, candidates, done))
  {
    hide Less, Graph.Ready;
    if |candidates| > 0 {
      var rest := candidates[1..];
      ReadyAmongIncreasing(g, rest, done);
      var r := ReadyAmong(g, rest, done);
      forall x | x in r ensures Less(candidates[0], x) {
        ReadyAmongFrom(g, rest, done, x);
        var i :| 0 <= i < |rest| && rest[i] == x;
        assert candidates[i + 1] == x;
      }
    }
  }

  lemma {:induction false} ReadyAmongFrom(g: Graph, candidates: seq<Package>, done: set<Package>, x: Package)
    requires x in ReadyAmong(g, candidates, done)
    ensures x in candidates
  {
    if |candidates| > 0 && x in ReadyAmong(g, candidates[1..], done) {
      ReadyAmongFrom(g, candidates[1..], done, x);
    }
  }

  lemma TurnsGrow(g: Graph, order: seq<Package>, x: Package, list: seq<Package>, added: seq<Package>)
    requires InTurn(g, order, list) && Increasing(added)
    requires forall p <- added :: !g.Ready(p, Elements(order)) && g.Ready(p, Elements(order + [x]))
    ensures InTurn(g, order + [x], list + added)
  {
    hide Less, Graph.Ready;
    var all := list + added;
    forall p | p in all ensures g.Ready(p, Elements(order + [x])) {
      if p in list { TimesStay(g, order, x, p); }
    }
    forall i, j | 0 <= i < j < |all| ensures Before(g, order + [x], all[i], all[j]) {
      if j < |list| {
        TimesStay(g, order, x, list[i]);
        TimesStay(g, order, x, list[j]);
        assert Before(g, order, list[i], list[j]);
      } else if i < |list| {
        TimesStay(g, order, x, list[i]);
        NewTime(g, order, x, added[j - |list|]);
      } else {
        NewTime(g, order, x, added[i - |list|]);
        NewTime(g, order, x, added[j - |list|]);
      }
    }
  }

  lemma RoundKeepsTurns(g: Graph, queue: seq<Package>, result: seq<Package>)
    requires |queue| > 0 && g.Invariant(queue, result) && InTurn(g, result, result + queue)
    ensures InTurn(g, result + [queue[0]], result + [queue[0]] + NextQueue(g, queue, result))
  {
    hide Less, InTurn, Increasing, Graph.Ready, Graph.Dependents, Graph.InOrderOfImports;
    var pkg, done := queue[0], Elements(result);
    var added := ReadyAmong(g, InOrder(g.Dependents(pkg)), done + {pkg});
    HeadIsNew(result, queue);
    NewlyReady(g, pkg, done);
    ElementsSnoc(result, pkg);
    ReadyAmongIncreasing(g, InOrder(g.Dependents(pkg)), done + {pkg});
    TurnsGrow(g, result, pkg, result + queue, added);
    Regroup(result, queue, added);
  }

  lemma {:induction false} OrderFromInTurn(g: Graph, queue: seq<Package>, result: seq<Package>)
    requires g.Invariant(queue, result) && InTurn(g, result, result + queue)
    ensures InTurn(g, OrderFrom(g, queue, result), OrderFrom(g, queue, result))
    decreases |g.emit| - |result|
  {
    hide InTurn, Graph.Invariant;
    if |queue| == 0 {
      assert result + queue == result;
    } else {
      RoundKeepsInvariant(g, queue, result);
      RoundKeepsTurns(g, queue, result);
      OrderFromInTurn(g, NextQueue(g, queue, result), result + [queue[0]]);
    }
  }

  lemma FirstInTurn(g: Graph)
    ensures InTurn(g, [], [] + FirstQueue(g))
  {
    hide Less, Graph.Deps, Graph.Ready, Increasing, Elements;
    var queue := FirstQueue(g);
    assert [] + queue == queue;
    var free := set p | p in g.emit && g.Deps(p) == {};
    assert Increasing(queue) && Elements(queue) == free;
    AllFree(g, queue, free);
    IncreasingTurns(g, queue);
  }

  lemma AllFree(g: Graph, queue: seq<Package>, free: set<Package>)
    requires Elements(queue) == free && forall p <- free :: g.Deps(p) == {}
    ensures forall p <- queue :: g.Ready(p, Elements([]))
  {
    hide Graph.Deps;
    forall p | p in queue ensures g.Ready(p, Elements([])) {
      assert p in Elements(queue);
    }
  }

  lemma IncreasingTurns(g: Graph, queue: seq<Package>)
    requires Increasing(queue) && forall p <- queue :: g.Ready(p, Elements([]))
    ensures InTurn(g, [], queue)
  {
    hide Less, Graph.Ready, Elements;
    forall i, j | 0 <= i < j < |queue| ensures Before(g, [], queue[i], queue[j]) {
      assert queue[i] in queue && queue[j] in queue;
    }
  }

  // The packages of the sort come in their turns.
  lemma OrderInTurn(g: Graph)
    ensures InTurn(g, Order(g), Order(g))
  {
    hide InTurn;
    FirstInTurn(g);
    OrderFromInTurn(g, FirstQueue(g), []);
  }

  // ---- there is no other such order ----

  lemma TimeInPrefix(g: Graph, order: seq<Package>, k: nat, p: Package)
    requires k <= |order| && g.Ready(p, Elements(order[..k]))
    ensures g.Ready(p, Elements(order)) && ReadyTime(g, order, p) == ReadyTime(g, order[..k], p)
  {
    hide Graph.Ready;
    var n := ReadyTime(g, order[..k], p);
    assert forall x <- order[..k] :: x in order;
    ReadyGrows(g, Elements(order[..k]), Elements(order));
    assert forall j :: 0 <= j <= n ==> order[..k][..j] == order[..j];
    ReadyTimeIs(g, order, p, n);
  }

  // What is ready after the first k packages and is not among them comes later.
  lemma ComesLater(g: Graph, order: seq<Package>, k: nat, p: Package) returns (j: nat)
    requires g.Invariant([], order) && k <= |order| && p in g.emit
    requires g.Ready(p, Elements(order[..k])) && p !in order[..k]
    ensures k <= j < |order| && order[j] == p
  {
    hide Graph.Ready, Distinct;
    assert order + [] == order;
    TimeInPrefix(g, order, k, p);
    assert p in order;
    j :| 0 <= j < |order| && order[j] == p;
    assert forall x :: 0 <= x < k ==> order[x] == order[..k][x] && order[x] in order[..k];
  }

  lemma NextIsSame(g: Graph, s: seq<Package>, t: seq<Package>, k: nat)
    requires g.Invariant([], s) && g.Invariant([], t) && InTurn(g, s, s) && InTurn(g, t, t)
    requires k < |s| && k <= |t| && s[..k] == t[..k]
    ensures k < |t| && s[k] == t[k]
  {
    hide Less, Graph.Ready;
    assert s + [] == s && t + [] == t;
    var p := s[k];
    assert g.Ready(p, Elements(s[..k]));
    assert p !in s[..k] by { OnlyOnce(s, k); }
    assert p in Elements(s);
    var j := ComesLater(g, t, k, p);
    if j > k {
      var q := t[k];
      assert g.Ready(q, Elements(t[..k]));
      assert q !in t[..k] by { OnlyOnce(t, k); }
      assert q in Elements(t);
      var i := ComesLater(g, s, k, q);
      assert t[k] != t[j] && s[i] == q && i > k;
      TimeInPrefix(g, s, k, p);
      TimeInPrefix(g, s, k, q);
      TimeInPrefix(g, t, k, p);
      TimeInPrefix(g, t, k, q);
      assert Before(g, s, s[k], s[i]) && Before(g, t, t[k], t[j]);
      LessIsTotal(p, q);
    }
  }

  lemma OnlyOnce(s: seq<Package>, k: nat)
    requires Distinct(s) && k < |s|
    ensures s[k] !in s[..k]
  {
  }

  // An order in which nothing that is ready is missing, every package comes after its imports, and all come
  // in their turns, is that of the sort.
  lemma OnlyOrder(g: Graph, order: seq<Package>)
    requires g.Invariant([], order) && InTurn(g, order, order)
    ensures order == Order(g)
  {
    hide InTurn, Graph.Invariant;
    OrderInTurn(g);
    SamePrefix(g, order, Order(g), |order|);
    SamePrefix(g, Order(g), order, |Order(g)|);
    assert order[..|order|] == order && Order(g)[..|Order(g)|] == Order(g);
  }

  lemma {:induction false} SamePrefix(g: Graph, s: seq<Package>, t: seq<Package>, k: nat)
    requires g.Invariant([], s) && g.Invariant([], t) && InTurn(g, s, s) && InTurn(g, t, t) && k <= |s|
    ensures k <= |t| && s[..k] == t[..k]
  {
    hide InTurn, Graph.Invariant;
    if k > 0 {
      SamePrefix(g, s, t, k - 1);
      NextIsSame(g, s, t, k - 1);
      assert s[..k] == s[..k - 1] + [s[k - 1]] && t[..k] == t[..k - 1] + [t[k - 1]];
    }
  }
}
