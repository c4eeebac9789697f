/** pkg/compose: start order by depth-first search, and the scaled start-up that follows it. */
module Compose {
  import opened Text
  import opened Digraph
  import opened Dag

  datatype Error = Circular(name: string) | NotFound(name: string)

  /** Every listed name comes after all its dependencies. */
  ghost predicate DepsFirst(e: Edges, order: seq<string>) {
    forall k, d :: 0 <= k < |order| && d in DepsOf(e, order[k]) ==> d in order[..k]
  }

  /** Each service once, dependencies first. */
  ghost predicate IsStartOrder(services: Edges, order: seq<string>) {
    NoDups(order) && Elems(order) == services.Keys && DepsFirst(services, order)
  }

  ghost predicate OnCycle(e: Edges, n: string) {
    exists p :: Cycle(e, p) && p[0] == n
  }

  /** The closure state of `startOrder`. */
  class Walk {
    const services: Edges
    var visited: set<string>
    var inStack: set<string>
    var result: seq<string>
    ghost var stack: seq<string>  // the names being visited, outermost first

    ghost predicate Valid()
      reads this
    {
      && visited == Elems(result) && NoDups(result) && visited <= services.Keys
      && DepsFirst(services, result)
      && inStack == Elems(stack) && Chain(services, stack)
      && inStack !! visited && inStack <= services.Keys
    }

    constructor (services: Edges)
      ensures Valid() && this.services == services && result == [] && stack == []
    {
      this.services := services;
      visited, inStack, result, stack := {}, {}, [], [];
    }

    /** `visit`: appends `name` and everything below it, or reports why that is impossible. */
    method Visit(name: string) returns (err: Option<Error>)
      requires Valid()
      requires stack != [] ==> name in DepsOf(services, stack[|stack| - 1])
      modifies this
      ensures err.None? ==>
        && Valid() && stack == old(stack) && old(result) <= result
        && name in visited && old(visited) <= visited
      ensures err.Some? && err.value.Circular? ==> OnCycle(services, err.value.name)
      ensures err.Some? && err.value.NotFound? ==>
        err.value.name !in services && (err.value.name == name || err.value.name in Targets(services))
      decreases services.Keys - inStack
    {
      hide DepsFirst;
      hide OnCycle;
      hide Chain;
      if name in inStack {
        ClosesCycle(services, stack, name);
        return Some(Circular(name));
      }
      if name in visited { return None; }
      inStack := inStack + {name};
      if name !in services { return Some(NotFound(name)); }
      ChainPush(services, stack, name);
      stack := stack + [name];
      var deps := services[name];
      for i := 0 to |deps|
        invariant Valid() && stack == old(stack) + [name] && old(result) <= result && old(visited) <= visited
        invariant forall k :: 0 <= k < i ==> deps[k] in visited
      {
        err := Visit(deps[i]);
        if err.Some? { return; }
      }
      inStack := inStack - {name};
      stack := old(stack);
      visited := visited + {name};
      DepsFirstPush(services, result, name);
      result := result + [name];
      err := None;
    }
  }

  lemma DepsFirstPush(e: Edges, order: seq<string>, n: string)
    requires DepsFirst(e, order) && forall d :: d in DepsOf(e, n) ==> d in order
    ensures DepsFirst(e, order + [n])
  {
    assert forall k :: 0 <= k < |order| ==> (order + [n])[..k] == order[..k];
    assert (order + [n])[..|order|] == order;
  }

  lemma ChainPush(e: Edges, p: seq<string>, n: string)
    requires Chain(e, p) && (p != [] ==> n in DepsOf(e, p[|p| - 1]))
    ensures Chain(e, p + [n])
  {
    var q := p + [n];
    forall i | 0 <= i < |q| - 1 ensures q[i + 1] in DepsOf(e, q[i]) {
      if i < |p| - 1 { assert q[i] == p[i] && q[i + 1] == p[i + 1]; }
    }
  }

  lemma ChainDrop(e: Edges, p: seq<string>, i: nat)
    requires Chain(e, p) && i <= |p|
    ensures Chain(e, p[i..])
  {
    var q := p[i..];
    forall k | 0 <= k < |q| - 1 ensures q[k + 1] in DepsOf(e, q[k]) {
      assert q[k] == p[i + k] && q[k + 1] == p[i + k + 1];
    }
  }

  lemma ClosesCycle(e: Edges, stack: seq<string>, n: string)
    requires Chain(e, stack) && n in stack && n in DepsOf(e, stack[|stack| - 1])
    ensures OnCycle(e, n)
  {
    var i :| 0 <= i < |stack| && stack[i] == n;
    ChainDrop(e, stack, i);
    ChainPush(e, stack[i..], n);
    assert Cycle(e, stack[i..] + [n]);
  }

  function IndexOf(s: seq<string>, x: string): (i: nat)
    requires x in s
    ensures i < |s| && s[i] == x
  {
    if s[0] == x then 0 else 1 + IndexOf(s[1..], x)
  }

  /** A dependencies-first list ranks its names by position. */
  lemma PositionsRank(e: Edges, order: seq<string>) returns (f: map<string, nat>)
    requires NoDups(order) && DepsFirst(e, order)
    ensures Ranks(e, Elems(order), f) && f.Keys == Elems(order)
    ensures forall k :: 0 <= k < |order| ==> f[order[k]] == k
  {
    f := map n | n in Elems(order) :: IndexOf(order, n);
    forall n, d | n in Elems(order) && d in DepsOf(e, n) ensures d in Elems(order) && f[d] < f[n] {
      var k := IndexOf(order, n);
      assert d in order[..k];
      var j :| 0 <= j < k && order[..k][j] == d;
      assert order[j] == d;
    }
  }

  /** `startOrder` succeeds exactly when every dependency is a service and nothing depends on
      itself; the map iteration order is arbitrary. */
  method StartOrder(services: Edges) returns (order: seq<string>, err: Option<Error>)
    ensures err.None? <==> Closed(services, services.Keys) && Acyclic(services)
    ensures err.None? ==> IsStartOrder(services, order)
    ensures err.Some? && err.value.Circular? ==> OnCycle(services, err.value.name)
    ensures err.Some? && err.value.NotFound? ==> err.value.name in Targets(services) - services.Keys
  {
    var w := new Walk(services);
    var todo := services.Keys;
    while todo != {}
      invariant todo <= services.Keys && services.Keys - todo <= w.visited
      invariant w.Valid() && w.stack == [] && w.services == services && fresh(w)
    {
      var name :| name in todo;
      err := w.Visit(name);
      if err.Some? {
        if err.value.NotFound? { MissingNotClosed(services, err.value.name); }
        return [], err;
      }
      todo := todo - {name};
    }
    order, err := w.result, None;
    OrderedMeansSound(services, order);
  }

  lemma MissingNotClosed(e: Edges, n: string)
    requires n in Targets(e) && n !in e
    ensures !Closed(e, e.Keys)
  {
    var m :| m in e && n in e[m];
    assert n in DepsOf(e, m);
  }

  lemma OrderedMeansSound(services: Edges, order: seq<string>)
    requires IsStartOrder(services, order)
    ensures Closed(services, services.Keys) && Acyclic(services)
  {
    var f := PositionsRank(services, order);
    forall p ensures !Cycle(services, p) {
      if Cycle(services, p) {
        CycleEnds(services, p);
        RankedNoCycle(services, Elems(order), f, p);
      }
    }
  }

  // ---- agreement with the level scheduler ----

  /** The levels one after another. */
  function Flatten(levels: seq<seq<string>>): seq<string> {
    if levels == [] then [] else Flatten(levels[..|levels| - 1]) + levels[|levels| - 1]
  }

  /** Appending a level whose dependencies are all listed keeps dependencies first. */
  lemma AppendLevel(e: Edges, before: seq<string>, last: seq<string>)
    requires NoDups(before) && NoDups(last) && DepsFirst(e, before)
    requires forall n :: n in last ==> n !in before && forall d :: d in DepsOf(e, n) ==> d in before
    ensures NoDups(before + last) && DepsFirst(e, before + last)
  {
    var order := before + last;
    forall i, j | 0 <= i < j < |order| ensures order[i] != order[j] {
      if i < |before| <= j { assert order[i] in before && order[j] in last; }
    }
    forall i, d | 0 <= i < |order| && d in DepsOf(e, order[i]) ensures d in order[..i] {
      if i < |before| {
        assert order[..i] == before[..i];
      } else {
        assert order[i] in last;
        assert order[..i] == before + last[..i - |before|];
      }
    }
  }

  lemma {:induction false} FlattenPrefix(e: Edges, ns: set<string>, level: map<string, nat>, levels: seq<seq<string>>,
                                         k: nat)
    requires Levelling(e, ns, level) && Grouped(level, levels) && k <= |levels|
    ensures var order := Flatten(levels[..k]);
            && NoDups(order) && DepsFirst(e, order)
            && forall n :: n in order <==> n in level && level[n] < k
  {
    hide DepsFirst;
    hide Ascending;
    if k == 0 {
      NothingOrdered(e);
    } else {
      FlattenPrefix(e, ns, level, levels, k - 1);
      var last := levels[k - 1];
      assert levels[..k][..k - 1] == levels[..k - 1];
      AscendingNoDups(last);
      AppendLevel(e, Flatten(levels[..k - 1]), last);
    }
  }

  lemma NothingOrdered(e: Edges)
    ensures DepsFirst(e, [])
  {
  }

  /** Reading the build levels front to back is one of the orders `startOrder` may return. */
  lemma LevelsFlattenToStartOrder(services: Edges, level: map<string, nat>, levels: seq<seq<string>>)
    requires Levelling(services, services.Keys, level) && Grouped(level, levels)
    ensures IsStartOrder(services, Flatten(levels))
  {
    FlattenPrefix(services, services.Keys, level, levels, |levels|);
    assert levels[..|levels|] == levels;
  }

  /** On a closed service graph the two schedulers accept the same inputs, and a service at
      level l is never started before l other services by either of them. */
  method CrossCheck(services: Edges, names: seq<string>)
    returns (byLevels: Option<seq<seq<string>>>, byWalk: seq<string>, err: Option<Error>, ghost level: map<string, nat>)
    requires Closed(services, services.Keys) && Elems(names) == services.Keys
    ensures byLevels.Some? <==> err.None?
    ensures err.None? ==> IsStartOrder(services, byWalk) && IsStartOrder(services, Flatten(byLevels.value))
    ensures err.None? ==> level.Keys == services.Keys && forall k :: 0 <= k < |byWalk| ==> level[byWalk[k]] <= k
  {
    var g := new Graph.New(names, services);
    assert g.nodes == services.Keys by {
      forall d | d in Targets(services) ensures d in services {
        var n :| n in services && d in services[n];
        assert d in DepsOf(services, n);
      }
    }
    byLevels, level := TopologicalSort(g);
    byWalk, err := StartOrder(services);
    if err.None? {
      LevelsFlattenToStartOrder(services, level, byLevels.value);
      ghost var f := PositionsRank(services, byWalk);
      forall k | 0 <= k < |byWalk| ensures level[byWalk[k]] <= k {
        assert byWalk[k] in Elems(byWalk);
        LevelIsMinimal(services, services.Keys, level, f, byWalk[k]);
      }
    }
  }

  // ---- in-place sorting of container names ----

  /** Sorted up to and including `i`, except that the element at `j` may be too small. */
  ghost predicate SortedBut(s: seq<string>, i: int, j: int) {
    forall p, q :: 0 <= p < q <= i < |s| && q != j ==> !Less(s[q], s[p])
  }

  lemma SwapDown(s: seq<string>, i: int, j: int)
    requires 0 < j <= i < |s| && SortedBut(s, i, j) && Less(s[j], s[j - 1])
    ensures SortedBut(s[j := s[j - 1]][j - 1 := s[j]], i, j - 1)
  {
    var t := s[j := s[j - 1]][j - 1 := s[j]];
    forall p, q | 0 <= p < q <= i && q != j - 1 ensures !Less(t[q], t[p]) {
      if q == j && p == j - 1 {
        if Less(t[q], t[p]) { LessTransitive(s[j], s[j - 1], s[j]); LessIrreflexive(s[j]); }
      }
    }
  }

  lemma Settled(s: seq<string>, i: int, j: int)
    requires 0 <= j <= i < |s| && SortedBut(s, i, j) && (j == 0 || !Less(s[j], s[j - 1]))
    ensures Sorted(s[..i + 1])
  {
    forall p, q | 0 <= p < q <= i ensures !Less(s[q], s[p]) {
      if q == j && p < j - 1 { LeqTransitive(s[p], s[j - 1], s[j]); }
    }
  }

  /** `sortStrings`: insertion sort in place. */
  method SortStrings(a: array<string>)
    modifies a
    ensures a[..] == Sort(old(a[..]))
  {
    hide Sort;
    var i := 1;
    while i < a.Length
      invariant 1 <= i && multiset(a[..]) == multiset(old(a[..]))
      invariant a.Length == 0 || (i <= a.Length && Sorted(a[..][..i]))
    {
      var j := i;
      while j > 0 && Less(a[j], a[j - 1])
        invariant 0 <= j <= i && SortedBut(a[..], i, j)
        invariant multiset(a[..]) == multiset(old(a[..]))
      {
        SwapDown(a[..], i, j);
        ghost var s := a[..];
        a[j], a[j - 1] := a[j - 1], a[j];
        assert a[..] == s[j := s[j - 1]][j - 1 := s[j]];
        j := j - 1;
      }
      Settled(a[..], i, j);
      i := i + 1;
    }
    SortSorts(old(a[..]));
    assert a[..][..a.Length] == a[..];
    SortedUnique(a[..], Sort(old(a[..])));
  }

  // ---- scaled start-up ----

  /** All requested replicas of `s` are in the log: the first, and as many as its scale says. */
  ghost predicate AllUp(scales: map<string, int>, log: seq<(string, nat)>, s: string) {
    forall i: nat :: i == 1 || (s in scales && 1 <= i <= scales[s]) ==> (s, i) in log
  }

  /** All requested replicas of everything `s` transitively depends on are in the log. */
  ghost predicate DepsUp(e: Edges, scales: map<string, int>, log: seq<(string, nat)>, s: string) {
    forall d :: Reaches(e, s, d) ==> AllUp(scales, log, d)
  }

  /** Every replica was started with all its transitive dependencies up. */
  ghost predicate InOrder(e: Edges, scales: map<string, int>, log: seq<(string, nat)>) {
    forall k :: 0 <= k < |log| ==> DepsUp(e, scales, log[..k], log[k].0)
  }

  lemma NothingStarted(e: Edges, scales: map<string, int>)
    ensures InOrder(e, scales, [])
  {
  }

  lemma InOrderGrows(e: Edges, scales: map<string, int>, log: seq<(string, nat)>, x: (string, nat))
    requires InOrder(e, scales, log) && DepsUp(e, scales, log, x.0)
    ensures InOrder(e, scales, log + [x])
  {
    hide DepsUp;
    var next := log + [x];
    forall k | 0 <= k < |next| ensures DepsUp(e, scales, next[..k], next[k].0) {
      assert next[..k] == log[..k];
      assert log[..|log|] == log;
    }
  }

  lemma ReachesEarlier(e: Edges, order: seq<string>, k: nat, d: string)
    requires NoDups(order) && DepsFirst(e, order) && k < |order| && Reaches(e, order[k], d)
    ensures d in order[..k]
  {
    var f := PositionsRank(e, order);
    RankEarlier(e, Elems(order), f, order[k], d);
    var j := IndexOf(order, d);
    assert f[order[j]] == j;
    assert order[..k][j] == d;
  }

  lemma RankEarlier(e: Edges, ns: set<string>, f: map<string, nat>, n: string, d: string)
    requires Ranks(e, ns, f) && n in ns && Reaches(e, n, d)
    ensures d in ns && f[d] < f[n]
  {
    var p :| |p| >= 2 && Chain(e, p) && p[0] == n && p[|p| - 1] == d;
    RankDrops(e, ns, f, p, |p| - 1);
  }

  lemma OrderedDepsUp(e: Edges, scales: map<string, int>, order: seq<string>, k: nat, log: seq<(string, nat)>)
    requires NoDups(order) && DepsFirst(e, order) && k < |order|
    requires forall m :: 0 <= m < k ==> AllUp(scales, log, order[m])
    ensures DepsUp(e, scales, log, order[k])
  {
    forall d | Reaches(e, order[k], d) ensures AllUp(scales, log, d) {
      ReachesEarlier(e, order, k, d);
      var m :| 0 <= m < k && order[..k][m] == d;
      assert order[m] == d;
    }
  }

  lemma AllUpNow(scales: map<string, int>, log: seq<(string, nat)>, s: string, replicas: int)
    requires replicas >= 1 && (s in scales ==> replicas >= scales[s])
    requires forall i: nat :: 1 <= i < replicas + 1 ==> (s, i) in log
    ensures AllUp(scales, log, s)
  {
  }

  lemma AllUpGrows(scales: map<string, int>, log: seq<(string, nat)>, x: (string, nat), order: seq<string>, k: nat)
    requires k <= |order| && forall m :: 0 <= m < k ==> AllUp(scales, log, order[m])
    ensures forall m :: 0 <= m < k ==> AllUp(scales, log + [x], order[m])
  {
  }

  /** Only replicas that were asked for, of services of the file, that did start. */
  ghost predicate AsAsked(services: Edges, scales: map<string, int>, startOk: (string, nat) -> bool,
                          log: seq<(string, nat)>) {
    forall x :: x in log ==>
      x.0 in services && (x.1 == 1 || (x.0 in scales && 1 <= x.1 <= scales[x.0])) && startOk(x.0, x.1)
  }

  lemma UpExactly(services: Edges, scales: map<string, int>, startOk: (string, nat) -> bool, log: seq<(string, nat)>)
    requires AsAsked(services, scales, startOk, log) && forall s :: s in services ==> AllUp(scales, log, s)
    ensures forall s, i: nat :: s in services ==>
      ((s, i) in log <==> i == 1 || (s in scales && 1 <= i <= scales[s]))
  {
    forall s, i: nat | s in services ensures (s, i) in log <==> i == 1 || (s in scales && 1 <= i <= scales[s]) {
      assert AllUp(scales, log, s);
    }
  }

  /** `UpScaled`. `startOk` is the outcome of each `startServiceAt`, `resourcesOk` that of
      `ensureResources`; `started` logs the successful starts in order. Whatever fails, nothing
      is started, or even attempted, before all replicas of all its transitive dependencies. */
  method UpScaled(services: Edges, scales: map<string, int>, resourcesOk: bool, startOk: (string, nat) -> bool)
    returns (started: seq<(string, nat)>, failed: Option<(string, nat)>, ok: bool)
    ensures InOrder(services, scales, started)
    ensures failed.Some? ==>
      && DepsUp(services, scales, started, failed.value.0) && failed.value !in started
      && failed.value.0 in services && !startOk(failed.value.0, failed.value.1)
      && (failed.value.1 == 1 || (failed.value.0 in scales && 1 <= failed.value.1 <= scales[failed.value.0]))
    ensures NoDups(started) && AsAsked(services, scales, startOk, started)
    ensures ok ==> forall s, i: nat :: s in services ==>
      ((s, i) in started <==> i == 1 || (s in scales && 1 <= i <= scales[s]))
    ensures ok <==> failed.None? && resourcesOk && Closed(services, services.Keys) && Acyclic(services)
  {
    hide InOrder;
    hide DepsUp;
    hide AllUp;
    hide DepsFirst;
    hide Closed;
    hide Acyclic;
    started, failed, ok := [], None, false;
    NothingStarted(services, scales);
    if !resourcesOk { return; }
    var order, err := StartOrder(services);
    if err.Some? { return; }
    for k := 0 to |order|
      invariant forall m :: 0 <= m < k ==> AllUp(scales, started, order[m])
      invariant forall x :: x in started ==> x.0 in order[..k]
      invariant InOrder(services, scales, started)
      invariant NoDups(started) && AsAsked(services, scales, startOk, started)
    {
      var name := order[k];
      assert name in Elems(order);
      assert name !in order[..k];
      OrderedDepsUp(services, scales, order, k, started);
      var replicas := if name in scales then scales[name] else 0;
      if replicas < 1 { replicas := 1; }
      for i := 1 to replicas + 1
        invariant forall m :: 0 <= m < k ==> AllUp(scales, started, order[m])
        invariant forall i': nat :: 1 <= i' < i ==> (name, i') in started
        invariant forall x :: x in started ==> x.0 in order[..k] || (x.0 == name && x.1 < i)
        invariant InOrder(services, scales, started)
        invariant NoDups(started) && AsAsked(services, scales, startOk, started)
      {
        OrderedDepsUp(services, scales, order, k, started);
        if !startOk(name, i) {
          failed := Some((name, i));
          return;
        }
        AllUpGrows(scales, started, (name, i), order, k);
        InOrderGrows(services, scales, started, (name, i));
        started := started + [(name, i)];
      }
      AllUpNow(scales, started, name, replicas);
      assert order[..k + 1] == order[..k] + [name];
    }
    OrderedMeansSound(services, order);
    forall s | s in services ensures AllUp(scales, started, s) { var m := IndexOf(order, s); }
    UpExactly(services, scales, startOk, started);
    ok := true;
  }
}
