/** Dependency graphs as both schedulers see them: a map from a name to the list of names
    it depends on. A name without an entry has no dependencies. */
module Digraph {
  import opened Text

  type Edges = map<string, seq<string>>

  function DepsOf(e: Edges, n: string): seq<string> {
    if n in e then e[n] else []
  }

  /** Every name that occurs as somebody's dependency. */
  function Targets(e: Edges): set<string> {
    set n, d | n in e && d in e[n] :: d
  }

  /** Each element depends directly on the next. */
  ghost predicate Chain(e: Edges, p: seq<string>) {
    forall i {:trigger DepsOf(e, p[i])} :: 0 <= i < |p| - 1 ==> p[i + 1] in DepsOf(e, p[i])
  }

  ghost predicate Cycle(e: Edges, p: seq<string>) {
    |p| >= 2 && Chain(e, p) && p[0] == p[|p| - 1]
  }

  ghost predicate Acyclic(e: Edges) {
    forall p :: !Cycle(e, p)
  }

  ghost predicate Closed(e: Edges, ns: set<string>) {
    forall n, d :: n in ns && d in DepsOf(e, n) ==> d in ns
  }

  /** `n` transitively depends on `d`. */
  ghost predicate Reaches(e: Edges, n: string, d: string) {
    exists p :: |p| >= 2 && Chain(e, p) && p[0] == n && p[|p| - 1] == d
  }

  /** `f` puts every dependency strictly below its dependant. */
  ghost predicate Ranks(e: Edges, ns: set<string>, f: map<string, nat>) {
    && ns <= f.Keys
    && forall n, d :: n in ns && d in DepsOf(e, n) ==> d in ns && f[d] < f[n]
  }

  /** Along a chain the rank falls by at least one per step. */
  lemma {:induction false} RankDrops(e: Edges, ns: set<string>, f: map<string, nat>, p: seq<string>, k: nat)
    requires Ranks(e, ns, f) && Chain(e, p) && k < |p| && p[0] in ns
    ensures p[k] in ns && f[p[k]] + k <= f[p[0]]
  {
    if k > 0 {
      RankDrops(e, ns, f, p, k - 1);
      assert p[k - 1 + 1] in DepsOf(e, p[k - 1]);
    }
  }

  /** A ranking rules out every cycle that meets the ranked names. */
  lemma RankedNoCycle(e: Edges, ns: set<string>, f: map<string, nat>, p: seq<string>)
    requires Ranks(e, ns, f) && |p| >= 2 && p[0] in ns
    ensures !Cycle(e, p)
  {
    if Cycle(e, p) { RankDrops(e, ns, f, p, |p| - 1); }
  }

  /** Every name on a cycle both has a dependency and is one. */
  lemma CycleEnds(e: Edges, p: seq<string>)
    requires Cycle(e, p)
    ensures p[0] in e && p[0] in Targets(e)
  {
    assert p[0 + 1] in DepsOf(e, p[0]);
    assert p[|p| - 2 + 1] in DepsOf(e, p[|p| - 2]);
  }

  ghost predicate HasDepIn(e: Edges, n: string, u: set<string>) {
    exists d :: d in DepsOf(e, n) && d in u
  }

  /** No name of `u` can go first: each depends on another name of `u`. */
  ghost predicate Deadlocked(e: Edges, u: set<string>) {
    forall n {:trigger HasDepIn(e, n, u)} :: n in u ==> HasDepIn(e, n, u)
  }

  /** Walking backwards inside `u`, a duplicate-free chain must eventually revisit a name. */
  lemma {:induction false} WalkClosesCycle(e: Edges, u: set<string>, p: seq<string>) returns (c: seq<string>)
    requires Deadlocked(e, u)
    requires p != [] && NoDups(p) && Chain(e, p)
    requires forall x :: x in p ==> x in u
    ensures Cycle(e, c)
    decreases |u| - |p|
  {
    NoDupsBound(p, u);
    var last := p[|p| - 1];
    assert HasDepIn(e, last, u);
    var d :| d in DepsOf(e, last) && d in u;
    if d in p {
      var i :| 0 <= i < |p| && p[i] == d;
      c := p[i..] + [d];
      forall k | 0 <= k < |c| - 1 ensures c[k + 1] in DepsOf(e, c[k]) {
        if k < |c| - 2 { assert c[k] == p[i + k] && c[k + 1] == p[i + k + 1]; }
      }
    } else {
      var q := p + [d];
      NoDupsBound(q, u);
      forall k | 0 <= k < |q| - 1 ensures q[k + 1] in DepsOf(e, q[k]) {
        if k < |q| - 2 { assert q[k] == p[k] && q[k + 1] == p[k + 1]; }
      }
      c := WalkClosesCycle(e, u, q);
    }
  }

  /** If every name of a non-empty finite set depends on another name of the set, the set
      contains a cycle. */
  lemma StuckMeansCycle(e: Edges, u: set<string>)
    requires u != {}
    requires Deadlocked(e, u)
    ensures !Acyclic(e)
  {
    var n :| n in u;
    var c := WalkClosesCycle(e, u, [n]);
  }
}
