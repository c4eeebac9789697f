/** pkg/dag: the build scheduler. Kahn's algorithm by levels. */
module Dag {
  import opened Text
  import opened Digraph

  /** Some dependency sits exactly one level below `n`. */
  ghost predicate Supported(e: Edges, level: map<string, nat>, n: string)
    requires n in level
  {
    exists d :: d in DepsOf(e, n) && d in level && level[d] + 1 == level[n]
  }

  /** The level of a name is 0 without dependencies and otherwise one more than the highest
      level among its dependencies. */
  ghost predicate Levelling(e: Edges, ns: set<string>, level: map<string, nat>) {
    && level.Keys == ns
    && Ranks(e, ns, level)
    && forall n {:trigger Supported(e, level, n)} :: n in ns && level[n] > 0 ==> Supported(e, level, n)
  }

  /** `levels[l]` lists, ascending, exactly the names at level `l`; no level is empty. */
  ghost predicate Grouped(level: map<string, nat>, levels: seq<seq<string>>) {
    && (forall n :: n in level ==> level[n] < |levels|)
    && (forall l :: 0 <= l < |levels| ==>
          levels[l] != [] && Ascending(levels[l]) && forall n :: n in levels[l] <==> n in level && level[n] == l)
  }

  /** `n` is not yet processed although all its dependencies are. */
  ghost predicate IsReady(e: Edges, processed: set<string>, n: string) {
    n !in processed && forall d :: d in DepsOf(e, n) ==> d in processed
  }

  ghost function Ready(e: Edges, processed: set<string>, s: set<string>): set<string> {
    set n | n in s && IsReady(e, processed, n)
  }

  class Graph {
    var nodes: set<string>
    var edges: Edges

    ghost predicate Valid()
      reads this
    {
      Targets(edges) <= nodes
    }

    /** `New`: registers the listed nodes and every name referenced as a dependency. */
    constructor New(ns: seq<string>, es: Edges)
      ensures Valid() && edges == es && nodes == Elems(ns) + Targets(es)
    {
      var known: set<string> := {};
      for i := 0 to |ns|
        invariant known == Elems(ns[..i])
      {
        known := known + {ns[i]};
        assert ns[..i + 1] == ns[..i] + [ns[i]];
      }
      assert ns[..|ns|] == ns;
      var copied: Edges := map[];
      var todo := es.Keys;
      while todo != {}
        invariant todo <= es.Keys && copied.Keys == es.Keys - todo
        invariant forall n :: n in copied ==> copied[n] == es[n]
        invariant known == Elems(ns) + Targets(copied)
      {
        var from :| from in todo;
        todo := todo - {from};
        var toList := es[from];
        ghost var before := known;
        for j := 0 to |toList|
          invariant known == before + Elems(toList[..j])
        {
          if toList[j] !in known { known := known + {toList[j]}; }
          assert toList[..j + 1] == toList[..j] + [toList[j]];
        }
        assert toList[..|toList|] == toList;
        assert forall n :: n in copied ==> n != from;
        TargetsGrow(copied, from, toList);
        copied := copied[from := toList];
      }
      assert copied == es;
      nodes, edges := known, es;
    }
  }

  lemma TargetsGrow(e: Edges, from: string, toList: seq<string>)
    requires from !in e
    ensures Targets(e[from := toList]) == Targets(e) + Elems(toList)
  {
    var e' := e[from := toList];
    forall d | d in Targets(e) + Elems(toList) ensures d in Targets(e') {
      if d in toList { assert from in e' && d in e'[from]; }
      else { var n :| n in e && d in e[n]; assert n in e' && d in e'[n]; }
    }
  }

  /** One sweep over the node map, in whatever order the map iterates. */
  method Sweep(g: Graph, processed: set<string>) returns (current: seq<string>)
    requires g.Valid()
    ensures NoDups(current) && Elems(current) == Ready(g.edges, processed, g.nodes)
  {
    current := [];
    var todo := g.nodes;
    while todo != {}
      invariant todo <= g.nodes
      invariant NoDups(current) && Elems(current) == Ready(g.edges, processed, g.nodes - todo)
    {
      var node :| node in todo;
      ghost var swept := g.nodes - todo;
      todo := todo - {node};
      assert g.nodes - todo == swept + {node} && node !in Elems(current);
      if node in processed { continue; }
      var deps := DepsOf(g.edges, node);
      var allDone := true;
      for i := 0 to |deps|
        invariant allDone && forall k :: 0 <= k < i ==> deps[k] in processed
      {
        if deps[i] !in processed {
          allDone := false;
          break;
        }
      }
      assert allDone <==> IsReady(g.edges, processed, node);
      if allDone {
        assert Elems(current + [node]) == Elems(current) + {node};
        current := current + [node];
      }
    }
    assert g.nodes - todo == g.nodes;
  }

  /** Marks a list of names as processed. */
  method Mark(processed: set<string>, names: seq<string>) returns (r: set<string>)
    ensures r == processed + Elems(names)
  {
    r := processed;
    for i := 0 to |names|
      invariant r == processed + Elems(names[..i])
    {
      r := r + {names[i]};
      assert names[..i + 1] == names[..i] + [names[i]];
    }
    assert names[..|names|] == names;
  }

  /** Nothing is ready while names remain: the remaining names contain a cycle. */
  lemma Stuck(e: Edges, ns: set<string>, processed: set<string>)
    requires Targets(e) <= ns && processed <= ns && processed != ns
    requires Ready(e, processed, ns) == {}
    ensures !Acyclic(e)
  {
    var u := ns - processed;
    assert ns == processed + u;
    forall n | n in u ensures HasDepIn(e, n, u) {
      assert n !in Ready(e, processed, ns);
      var d :| d in DepsOf(e, n) && d !in processed;
      assert d in Targets(e);
    }
    StuckMeansCycle(e, u);
  }

  /** A complete levelling leaves no room for a cycle. */
  lemma CompleteMeansAcyclic(e: Edges, ns: set<string>, level: map<string, nat>)
    requires Targets(e) <= ns && Levelling(e, ns, level)
    ensures Acyclic(e)
  {
    forall p ensures !Cycle(e, p) {
      if Cycle(e, p) {
        CycleEnds(e, p);
        RankedNoCycle(e, ns, level, p);
      }
    }
  }

  ghost predicate Waits(e: Edges, level: map<string, nat>, k: nat, n: string) {
    exists d :: d in DepsOf(e, n) && (d !in level || level[d] == k - 1)
  }

  /** Every unprocessed name still waits for something at least as late as the last level. */
  ghost predicate Waiting(e: Edges, ns: set<string>, level: map<string, nat>, k: nat) {
    k > 0 ==> forall n {:trigger Waits(e, level, k, n)} :: n in ns && n !in level ==> Waits(e, level, k, n)
  }

  ghost function Extend(level: map<string, nat>, added: set<string>, k: nat): map<string, nat> {
    map n | n in level.Keys + added :: if n in level then level[n] else k
  }

  /** The state between two rounds: a levelling of the processed names, grouped, and nobody
      left behind who could have run earlier. */
  ghost predicate Round(e: Edges, ns: set<string>, level: map<string, nat>, levels: seq<seq<string>>) {
    && level.Keys <= ns
    && Levelling(e, level.Keys, level)
    && Grouped(level, levels)
    && Waiting(e, ns, level, |levels|)
  }

  lemma ExtendLevelling(e: Edges, ns: set<string>, level: map<string, nat>, levels: seq<seq<string>>,
                        added: set<string>)
    requires Round(e, ns, level, levels) && added == Ready(e, level.Keys, ns)
    ensures var level' := Extend(level, added, |levels|); Levelling(e, level'.Keys, level')
  {
    hide Round;
    hide Ready;
    hide Supported;
    hide DepsOf;
    var level' := Extend(level, added, |levels|);
    forall n, d | n in level' && d in DepsOf(e, n) ensures d in level' && level'[d] < level'[n] {
      ExtendBelow(e, ns, level, levels, added, n, d);
    }
    forall n | n in level' && level'[n] > 0 ensures Supported(e, level', n) {
      ExtendSupported(e, ns, level, levels, added, n);
    }
    hide Extend;
    assert Ranks(e, level'.Keys, level');
  }

  lemma ExtendBelow(e: Edges, ns: set<string>, level: map<string, nat>, levels: seq<seq<string>>,
                    added: set<string>, n: string, d: string)
    requires Round(e, ns, level, levels) && added == Ready(e, level.Keys, ns)
    requires n in level.Keys + added && d in DepsOf(e, n)
    ensures var level' := Extend(level, added, |levels|); d in level' && level'[d] < level'[n]
  {
    hide Supported;
    if n !in level { assert IsReady(e, level.Keys, n); }
  }

  lemma ExtendSupported(e: Edges, ns: set<string>, level: map<string, nat>, levels: seq<seq<string>>,
                        added: set<string>, n: string)
    requires Round(e, ns, level, levels) && added == Ready(e, level.Keys, ns) && n in level.Keys + added
    ensures var level' := Extend(level, added, |levels|); level'[n] > 0 ==> Supported(e, level', n)
  {
    hide Grouped;
    var k := |levels|;
    var level' := Extend(level, added, k);
    if n in level {
      if level[n] > 0 {
        assert Supported(e, level, n);
        var d :| d in DepsOf(e, n) && d in level && level[d] + 1 == level[n];
        assert level'[d] + 1 == level'[n];
      }
    } else if k > 0 {
      assert IsReady(e, level.Keys, n) && Waits(e, level, k, n);
      var d :| d in DepsOf(e, n) && (d !in level || level[d] == k - 1);
      assert level'[d] + 1 == level'[n];
    }
  }

  lemma ExtendGrouped(level: map<string, nat>, levels: seq<seq<string>>, sorted: seq<string>)
    requires Grouped(level, levels) && Ascending(sorted) && sorted != [] && Elems(sorted) !! level.Keys
    ensures Grouped(Extend(level, Elems(sorted), |levels|), levels + [sorted])
  {
    var level' := Extend(level, Elems(sorted), |levels|);
    var levels' := levels + [sorted];
    forall l | 0 <= l < |levels'| ensures forall n :: n in levels'[l] <==> n in level' && level'[n] == l {
      forall n ensures n in levels'[l] <==> n in level' && level'[n] == l {
        assert n in sorted <==> n in Elems(sorted);
      }
    }
  }

  lemma ExtendWaiting(e: Edges, ns: set<string>, level: map<string, nat>, k: nat, added: set<string>)
    requires Targets(e) <= ns && added == Ready(e, level.Keys, ns)
    ensures Waiting(e, ns, Extend(level, added, k), k + 1)
  {
    var level' := Extend(level, added, k);
    forall n | n in ns && n !in level' ensures Waits(e, level', k + 1, n) {
      assert !IsReady(e, level.Keys, n);
      var d :| d in DepsOf(e, n) && d !in level;
      assert d !in level' || level'[d] == k;
    }
  }

  /** Appending the sorted ready names as a new level reaches the next round. */
  lemma NextRound(e: Edges, ns: set<string>, level: map<string, nat>, levels: seq<seq<string>>, current: seq<string>)
    requires Targets(e) <= ns && Round(e, ns, level, levels)
    requires current != [] && NoDups(current) && Elems(current) == Ready(e, level.Keys, ns)
    ensures var sorted := Sort(current);
            && Round(e, ns, Extend(level, Elems(sorted), |levels|), levels + [sorted])
            && sorted != [] && Elems(sorted) !! level.Keys && Elems(sorted) <= ns
  {
    SortAscends(current);
    SortSorts(current);
    var sorted := Sort(current);
    ExtendLevelling(e, ns, level, levels, Elems(sorted));
    ExtendGrouped(level, levels, sorted);
    ExtendWaiting(e, ns, level, |levels|, Elems(sorted));
  }

  /** `TopologicalSort` fails exactly on cyclic dependency maps. Otherwise it returns the
      levelling of the graph, level by level; `level` is the source's local of that name. */
  method TopologicalSort(g: Graph) returns (result: Option<seq<seq<string>>>, ghost level: map<string, nat>)
    requires g.Valid()
    ensures result.Some? <==> Acyclic(g.edges)
    ensures result.Some? ==> Levelling(g.edges, g.nodes, level) && Grouped(level, result.value)
  {
    var levels: seq<seq<string>> := [];
    var processed: set<string> := {};
    level := map[];
    while |processed| < |g.nodes|
      invariant processed == level.Keys && Round(g.edges, g.nodes, level, levels)
      decreases g.nodes - processed
    {
      var current := Sweep(g, processed);
      if |current| == 0 {
        Stuck(g.edges, g.nodes, processed);
        return None, level;
      }
      var sorted := Sort(current);
      NextRound(g.edges, g.nodes, level, levels, current);
      level := Extend(level, Elems(sorted), |levels|);
      levels := levels + [sorted];
      processed := Mark(processed, sorted);
      assert sorted[0] in processed;
    }
    SubsetCard(processed, g.nodes);
    CompleteMeansAcyclic(g.edges, g.nodes, level);
    result := Some(levels);
  }

  /** A graph whose dependencies all sit exactly one level down is levelled. */
  lemma UnitStepsLevel(e: Edges, level: map<string, nat>)
    requires e.Keys == level.Keys
    requires forall x, d :: x in e && d in DepsOf(e, x) ==> d in level && level[d] + 1 == level[x]
    requires forall x :: x in level && level[x] > 0 ==> DepsOf(e, x) != []
    ensures Levelling(e, e.Keys, level) && Targets(e) <= e.Keys
  {
    forall x | x in level && level[x] > 0 ensures Supported(e, level, x) {
      var d := DepsOf(e, x)[0];
      assert d in DepsOf(e, x);
    }
    forall d | d in Targets(e) ensures d in e {
      var x :| x in e && d in e[x];
      assert d in DepsOf(e, x);
    }
  }

  // ---- what the levels mean ----

  /** Every name at level l heads a dependency chain of l + 1 names. */
  lemma {:induction false} LevelHasChain(e: Edges, ns: set<string>, level: map<string, nat>, n: string)
    returns (p: seq<string>)
    requires Levelling(e, ns, level) && n in ns
    ensures Chain(e, p) && |p| == level[n] + 1 && p[0] == n
    decreases level[n]
  {
    if level[n] == 0 {
      p := [n];
    } else {
      assert Supported(e, level, n);
      var d :| d in DepsOf(e, n) && d in level && level[d] + 1 == level[n];
      var q := LevelHasChain(e, ns, level, d);
      p := [n] + q;
      forall i | 0 <= i < |p| - 1 ensures p[i + 1] in DepsOf(e, p[i]) {
        if i > 0 { assert p[i] == q[i - 1] && p[i + 1] == q[i - 1 + 1]; }
      }
    }
  }

  /** The level is the length of the longest chain: it is attained and no chain beats it. */
  lemma LevelIsLongestChain(e: Edges, ns: set<string>, level: map<string, nat>, n: string)
    requires Levelling(e, ns, level) && n in ns
    ensures exists p :: Chain(e, p) && p != [] && p[0] == n && |p| == level[n] + 1
    ensures forall p :: Chain(e, p) && p != [] && p[0] == n ==> |p| <= level[n] + 1
  {
    var p := LevelHasChain(e, ns, level, n);
    forall q | Chain(e, q) && q != [] && q[0] == n ensures |q| <= level[n] + 1 {
      RankDrops(e, ns, level, q, |q| - 1);
    }
  }

  /** No assignment of names to rounds that respects dependencies puts a name earlier. */
  lemma LevelIsMinimal(e: Edges, ns: set<string>, level: map<string, nat>, f: map<string, nat>, n: string)
    requires Levelling(e, ns, level) && Ranks(e, ns, f) && n in ns
    ensures level[n] <= f[n]
  {
    var p := LevelHasChain(e, ns, level, n);
    RankDrops(e, ns, f, p, |p| - 1);
  }

  /** Hence no schedule finishes in fewer rounds than `TopologicalSort`. */
  lemma NoShorterSchedule(e: Edges, ns: set<string>, level: map<string, nat>, levels: seq<seq<string>>,
                          f: map<string, nat>, rounds: nat)
    requires Levelling(e, ns, level) && Grouped(level, levels)
    requires Ranks(e, ns, f) && forall n :: n in ns ==> f[n] < rounds
    ensures |levels| <= rounds
  {
    if levels != [] {
      var n := levels[|levels| - 1][0];
      assert n in levels[|levels| - 1];
      LevelIsMinimal(e, ns, level, f, n);
    }
  }

  /** The result is a function of the graph: map iteration order cannot show. */
  lemma LevelsUnique(e: Edges, ns: set<string>, level: map<string, nat>, levels: seq<seq<string>>,
                     level': map<string, nat>, levels': seq<seq<string>>)
    requires Levelling(e, ns, level) && Grouped(level, levels)
    requires Levelling(e, ns, level') && Grouped(level', levels')
    ensures level == level' && levels == levels'
  {
    forall n | n in ns ensures level[n] == level'[n] {
      LevelIsMinimal(e, ns, level, level', n);
      LevelIsMinimal(e, ns, level', level, n);
    }
    NoShorterSchedule(e, ns, level, levels, level', |levels'|);
    NoShorterSchedule(e, ns, level', levels', level, |levels|);
    forall l | 0 <= l < |levels| ensures levels[l] == levels'[l] {
      assert Elems(levels[l]) == Elems(levels'[l]);
      AscendingUnique(levels[l], levels'[l]);
    }
  }
}
