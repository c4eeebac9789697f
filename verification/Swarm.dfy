/** internal/swarm/service.go: converging the containers of a service to its desired count and
    rolling them to a new specification. */
module Swarm {
  import opened Text

  const MAX_INT: int := 0x7fff_ffff_ffff_ffff

  /** What a container is created from; `body` stands for command, environment, mounts and the
      other fields copied verbatim. */
  datatype Config = Config(image: string, body: string)
  datatype Spec = Spec(config: Config, replicas: int, parallelism: int)
  datatype Service = Service(name: string, spec: Spec, previous: Option<Spec>)

  type Containers = map<string, Config>

  // ---- names ----

  function Prefix(name: string): string { "swarm-" + name + "-" }

  function ReplicaID(name: string, index: nat): string { Prefix(name) + Itoa(index) }

  predicate Matches(name: string, id: string) { |id| > |Prefix(name)| && Prefix(name) <= id }

  function Matching(name: string, ids: set<string>): set<string> { set id | id in ids && Matches(name, id) }

  /** `strconv.Atoi` for 64-bit integers. */
  function Atoi(s: string): Option<int> {
    var neg := s != [] && s[0] == '-';
    var digits := if s != [] && (s[0] == '-' || s[0] == '+') then s[1..] else s;
    if digits == [] || !AllDigits(digits) then None
    else
      var v: int := Value(digits);
      if neg then if v > MAX_INT + 1 then None else Some(0 - v) else if v > MAX_INT then None else Some(v)
  }

  /** `containerIndex`. */
  function Index(name: string, id: string): int
    requires Matches(name, id)
  {
    match Atoi(id[|Prefix(name)|..]) case None => 0 case Some(n) => n
  }

  lemma ReplicaMatches(name: string, i: nat)
    ensures Matches(name, ReplicaID(name, i)) && ReplicaID(name, i)[|Prefix(name)|..] == Itoa(i)
  {
  }

  /** The index written into a name is read back, within the range of `int`. */
  lemma IndexRoundTrip(name: string, i: nat)
    requires i <= MAX_INT
    ensures Matches(name, ReplicaID(name, i)) && Index(name, ReplicaID(name, i)) == i
  {
    ReplicaMatches(name, i);
    ItoaValue(i);
    assert IsDigit(Itoa(i)[0]);
  }

  /** What `strconv.Atoi` makes of a suffix: an optional sign and digits within the range of `int`,
      and nothing else. */
  lemma AtoiReads(n: nat, s: string)
    ensures Atoi(Itoa(n)) == Atoi("+" + Itoa(n)) == if n <= 0x7fff_ffff_ffff_ffff then Some(n) else None
    ensures Atoi("-" + Itoa(n)) == if n <= 0x8000_0000_0000_0000 then Some(0 - n) else None
    ensures s == "" || s == "+" || s == "-" || (exists i :: 0 < i < |s| && s[i] !in DIGITS) ==> Atoi(s) == None
    ensures s != "" && s[0] !in DIGITS && s[0] != '+' && s[0] != '-' ==> Atoi(s) == None
  {
    ItoaValue(n);
    assert IsDigit(Itoa(n)[0]);
    assert ("+" + Itoa(n))[1..] == Itoa(n) && ("-" + Itoa(n))[1..] == Itoa(n);
    if i :| 0 < i < |s| && s[i] !in DIGITS {
      DigitIff(s[i]);
      assert !IsDigit(s[i]) && s[1..][i - 1] == s[i];
    }
    if s != "" { DigitIff(s[0]); }
  }

  lemma ReplicaInjective(name: string, i: nat, j: nat)
    ensures ReplicaID(name, i) == ReplicaID(name, j) <==> i == j
  {
    ReplicaMatches(name, i);
    ReplicaMatches(name, j);
    ItoaInjective(i, j);
  }

  /** The service's containers are named by its prefix and something after it. */
  lemma MatchesIff(name: string, id: string)
    ensures Matches(name, id) <==> exists x: string :: x != "" && id == "swarm-" + name + "-" + x
  {
    if Matches(name, id) {
      var x := id[|Prefix(name)|..];
      assert id == "swarm-" + name + "-" + x;
    }
  }

  /** What follows the prefix is the index if it is a number, and otherwise the index is 0. */
  lemma IndexReads(name: string, x: string)
    requires x != ""
    ensures var id := "swarm-" + name + "-" + x;
            Matches(name, id) && Index(name, id) == if Atoi(x).Some? then Atoi(x).value else 0
  {
    var id := "swarm-" + name + "-" + x;
    assert id[..|Prefix(name)|] == Prefix(name) && id[|Prefix(name)|..] == x;
  }

  /** The positive indices in use among `ids`. */
  function Used(name: string, ids: set<string>): set<int> {
    set id | id in ids && Matches(name, id) && Index(name, id) > 0 :: Index(name, id)
  }

  lemma {:induction false} UsedBound(name: string, ids: set<string>)
    ensures |Used(name, ids)| <= |Matching(name, ids)|
  {
    hide Index;
    hide Matches;
    if ids == {} {
      assert Used(name, ids) == {};
    } else {
      var id :| id in ids;
      var rest := ids - {id};
      UsedBound(name, rest);
      if Matches(name, id) {
        assert Matching(name, ids) == Matching(name, rest) + {id};
        if Index(name, id) > 0 {
          assert Used(name, ids) == Used(name, rest) + {Index(name, id)};
        } else {
          assert Used(name, ids) == Used(name, rest);
        }
      } else {
        assert Matching(name, ids) == Matching(name, rest);
        assert Used(name, ids) == Used(name, rest);
      }
    }
  }

  lemma {:induction false} RangeBound(i: nat, s: set<int>)
    requires forall j :: 1 <= j < i ==> j in s
    ensures i - 1 <= |s|
  {
    if i > 1 {
      RangeBound(i - 1, s - {i - 1});
      assert |s - {i - 1}| == |s| - 1;
    }
  }

  /** If all indices below `i` are taken, there are at least `i - 1` containers. */
  lemma LowestFree(name: string, ids: set<string>, i: nat)
    requires forall j :: 1 <= j < i ==> j in Used(name, ids)
    ensures i - 1 <= |Matching(name, ids)|
  {
    RangeBound(i, Used(name, ids));
    UsedBound(name, ids);
  }

  /** A free index names a container that does not exist yet, and creating it takes the index. */
  lemma FreshReplica(name: string, ids: set<string>, i: nat)
    requires 1 <= i <= MAX_INT && i !in Used(name, ids)
    ensures ReplicaID(name, i) !in ids
    ensures Used(name, ids + {ReplicaID(name, i)}) == Used(name, ids) + {i}
    ensures Matching(name, ids + {ReplicaID(name, i)}) == Matching(name, ids) + {ReplicaID(name, i)}
  {
    IndexRoundTrip(name, i);
    hide Index;
    hide Matches;
    hide ReplicaID;
    var id := ReplicaID(name, i);
    assert Index(name, id) == i;
    assert id in ids ==> i in Used(name, ids);
    forall k | k in Used(name, ids) + {i} ensures k in Used(name, ids + {id}) {
      if k == i { assert Index(name, id) == i; }
      else {
        var d :| d in ids && Matches(name, d) && Index(name, d) > 0 && Index(name, d) == k;
        assert d in ids + {id};
      }
    }
  }

  // ---- the container store ----

  class World {
    var containers: Containers
    ghost var history: seq<set<string>>  // the identifiers present after every change
    ghost var faults: nat                // how many deletions, creations and starts have failed

    /** `runtime.Delete`: removes the container, or fails and leaves it. */
    method Delete(id: string) returns (ok: bool)
      modifies this
      ensures containers == if ok then old(containers) - {id} else old(containers)
      ensures history == old(history) + [containers.Keys]
      ensures faults == old(faults) + if ok then 0 else 1
    {
      ok := *;
      if ok { containers := containers - {id}; } else { faults := faults + 1; }
      history := history + [containers.Keys];
    }

    method Put(id: string, cfg: Config)
      modifies this
      ensures containers == old(containers)[id := cfg] && history == old(history) + [containers.Keys]
      ensures faults == old(faults)
    {
      containers := containers[id := cfg];
      history := history + [containers.Keys];
    }

    /** `startReplica`: creation may fail before or after the directory exists; a failed start
        deletes what was created, if it can. */
    method StartReplica(svc: Service, index: nat) returns (ok: bool)
      modifies this
      ensures ok ==> containers == old(containers)[ReplicaID(svc.name, index) := svc.spec.config]
      ensures containers - {ReplicaID(svc.name, index)} == old(containers) - {ReplicaID(svc.name, index)}
      ensures ok <==> faults == old(faults)
      ensures faults >= old(faults)
      ensures old(history) <= history
      ensures forall k :: |old(history)| <= k < |history| ==>
          history[k] - {ReplicaID(svc.name, index)} == old(containers).Keys - {ReplicaID(svc.name, index)}
    {
      hide ReplicaID;
      var id := ReplicaID(svc.name, index);
      var made: bool, created: bool, started: bool := *, *, *;
      if !(made && created && started) { faults := faults + 1; }
      ok := false;
      if !made { return; }
      Put(id, svc.spec.config);
      if !created { return; }
      if !started {
        var deleted := Delete(id);
        return;
      }
      ok := true;
    }

    /** `serviceContainers`: the service's identifiers, ascending. A directory that cannot be read
        counts as empty; at most `failures` more readings fail, and `left` is what remains of that
        number. */
    method ServiceContainers(name: string, failures: nat) returns (ids: seq<string>, left: nat)
      ensures left == failures ==> Ascending(ids) && Elems(ids) == Matching(name, containers.Keys)
      ensures left != failures ==> ids == [] && left + 1 == failures
    {
      hide Matches;
      var readable: bool := *;
      if !readable && failures > 0 { return [], failures - 1; }
      ids, left := [], failures;
      var todo := containers.Keys;
      while todo != {}
        invariant todo <= containers.Keys && NoDups(ids)
        invariant Elems(ids) == Matching(name, containers.Keys - todo)
      {
        var id :| id in todo;
        ghost var before := containers.Keys - todo;
        todo := todo - {id};
        assert containers.Keys - todo == before + {id} && id !in Elems(ids);
        if Matches(name, id) {
          assert Elems(ids + [id]) == Elems(ids) + {id};
          ids := ids + [id];
        }
      }
      assert containers.Keys - todo == containers.Keys;
      SortAscends(ids);
      ids := Sort(ids);
    }
  }

  // ---- reconciling ----

  /** The first `k` entries. */
  function Take(s: seq<string>, k: int): seq<string>
    requires 0 <= k
  {
    if |s| <= k then s else s[..k]
  }

  /** Outside the service's prefix nothing changed. */
  ghost predicate OthersKept(name: string, before: Containers, after: Containers) {
    forall id :: !Matches(name, id) ==> (id in before <==> id in after) && (id in before ==> after[id] == before[id])
  }

  /** A name exactly as `startReplica` writes it. */
  predicate Canonical(name: string, id: string) {
    Matches(name, id) && Index(name, id) > 0 && id == ReplicaID(name, Index(name, id))
  }

  /** `after` keeps the containers `kept` as they were; every other container of the service is
      new, runs the service's configuration, and took the lowest positive index that was free. */
  ghost predicate Refilled(svc: Service, before: Containers, kept: set<string>, after: Containers) {
    var name := svc.name;
    && OthersKept(name, before, after)
    && kept <= Matching(name, after.Keys) && kept <= before.Keys
    && (forall id :: id in kept ==> after[id] == before[id])
    && (forall id :: id in Matching(name, after.Keys) && id !in kept ==> FreshlyFilled(svc, kept, after, id))
  }

  ghost predicate FreshlyFilled(svc: Service, kept: set<string>, after: Containers, id: string)
    requires id in after
  {
    && Canonical(svc.name, id) && after[id] == svc.spec.config
    && Index(svc.name, id) !in Used(svc.name, kept)
    && forall j :: 1 <= j < Index(svc.name, id) ==> j in Used(svc.name, after.Keys)
  }

  /** `used`, as `Reconcile` collects it from the surviving containers. */
  method CollectUsed(name: string, existing: seq<string>) returns (used: set<int>)
    requires forall id :: id in existing ==> Matches(name, id)
    ensures used == Used(name, Elems(existing))
  {
    hide Index;
    hide Matches;
    used := {};
    for k := 0 to |existing|
      invariant used == Used(name, Elems(existing[..k]))
    {
      var id := existing[k];
      var idx := Index(name, id);
      assert Elems(existing[..k + 1]) == Elems(existing[..k]) + {id};
      UsedAdd(name, Elems(existing[..k]), id);
      if idx > 0 { used := used + {idx}; }
    }
    assert existing[..|existing|] == existing;
  }

  lemma UsedAdd(name: string, ids: set<string>, id: string)
    requires Matches(name, id)
    ensures Used(name, ids + {id}) == Used(name, ids) + (if Index(name, id) > 0 then {Index(name, id)} else {})
  {
    hide Index;
    hide Matches;
    forall k | k in Used(name, ids) + (if Index(name, id) > 0 then {Index(name, id)} else {})
      ensures k in Used(name, ids + {id})
    {
      if k in Used(name, ids) {
        var d :| d in ids && Matches(name, d) && Index(name, d) > 0 && Index(name, d) == k;
        assert d in ids + {id};
      }
    }
  }

  /** Only the service's own containers determine the indices in use. */
  lemma UsedOfMatching(name: string, ids: set<string>)
    ensures Used(name, Matching(name, ids)) == Used(name, ids)
  {
    hide Index;
    hide Matches;
    forall k | k in Used(name, ids) ensures k in Used(name, Matching(name, ids)) {
      var d :| d in ids && Matches(name, d) && Index(name, d) > 0 && Index(name, d) == k;
      assert d in Matching(name, ids);
    }
  }

  /** One successful start, at the lowest free index. */
  lemma FillOne(svc: Service, before: Containers, kept: set<string>, now: Containers, i: nat)
    requires Refilled(svc, before, kept, now) && 1 <= i <= MAX_INT && i !in Used(svc.name, now.Keys)
    requires forall j :: 1 <= j < i ==> j in Used(svc.name, now.Keys)
    ensures var now' := now[ReplicaID(svc.name, i) := svc.spec.config];
            && Refilled(svc, before, kept, now')
            && Used(svc.name, now'.Keys) == Used(svc.name, now.Keys) + {i}
            && |Matching(svc.name, now'.Keys)| == |Matching(svc.name, now.Keys)| + 1
  {
    hide Index;
    hide Matches;
    hide ReplicaID;
    hide Used;
    hide OthersKept;
    var name := svc.name;
    var id := ReplicaID(name, i);
    var now' := now[id := svc.spec.config];
    FreshReplica(name, now.Keys, i);
    IndexRoundTrip(name, i);
    assert now'.Keys == now.Keys + {id};
    KeptUsed(name, kept, now.Keys);
    assert id !in Matching(name, now.Keys);
    OthersKeptAdd(name, before, now, id, svc.spec.config);
    forall d | d in Matching(name, now'.Keys) && d !in kept ensures FreshlyFilled(svc, kept, now', d) {
      if d != id { assert FreshlyFilled(svc, kept, now, d); }
    }
  }

  lemma OthersKeptAdd(name: string, before: Containers, now: Containers, id: string, cfg: Config)
    requires OthersKept(name, before, now) && Matches(name, id)
    ensures OthersKept(name, before, now[id := cfg])
  {
    hide Matches;
  }

  lemma KeptUsed(name: string, kept: set<string>, ids: set<string>)
    requires kept <= Matching(name, ids)
    ensures Used(name, kept) <= Used(name, ids)
  {
    hide Index;
    hide Matches;
    forall k | k in Used(name, kept) ensures k in Used(name, ids) {
      var d :| d in kept && Matches(name, d) && Index(name, d) > 0 && Index(name, d) == k;
      assert d in ids;
    }
  }

  /** The deletion loop of `Reconcile`: drops the last identifiers until `limit` are left. */
  method Shrink(w: World, name: string, ids: seq<string>, limit: nat) returns (existing: seq<string>, ok: bool)
    requires Ascending(ids) && Elems(ids) <= Matching(name, w.containers.Keys)
    modifies w
    ensures OthersKept(name, old(w.containers), w.containers)
    ensures existing <= ids && w.containers == old(w.containers) - (Elems(ids) - Elems(existing))
    ensures ok ==> existing == Take(ids, limit)
    ensures !ok ==> |existing| > limit
    ensures |ids| <= limit ==> ok
    ensures w.faults >= old(w.faults) && (ok <==> w.faults == old(w.faults))
  {
    hide Matches;
    AscendingNoDups(ids);
    existing, ok := ids, true;
    while |existing| > limit
      invariant existing == ids[..|existing|] && |existing| <= |ids| && (|existing| >= limit || existing == ids)
      invariant w.containers == old(w.containers) - (Elems(ids) - Elems(existing)) && w.faults == old(w.faults)
    {
      var id := existing[|existing| - 1];
      assert id in Elems(ids);
      ok := w.Delete(id);
      if !ok { return; }
      ghost var longer := existing;
      existing := existing[..|existing| - 1];
      assert longer == existing + [id];
      assert id !in existing;
      assert Elems(longer) == Elems(existing) + {id};
      assert Elems(ids) - Elems(existing) == (Elems(ids) - Elems(longer)) + {id};
    }
    assert ids[..|ids|] == ids;
  }

  /** After shrinking, the survivors are all there is of the service. */
  lemma Shrunk(svc: Service, before: Containers, ids: seq<string>, existing: seq<string>)
    requires Elems(ids) == Matching(svc.name, before.Keys) && Elems(existing) <= Elems(ids)
    ensures var now := before - (Elems(ids) - Elems(existing));
            Matching(svc.name, now.Keys) == Elems(existing) && Refilled(svc, before, Elems(existing), now)
  {
    hide Index;
    hide Matches;
    hide ReplicaID;
  }

  /** One start, at an index that may be in use. */
  lemma StartOne(name: string, ids: set<string>, i: nat)
    requires 1 <= i <= MAX_INT
    ensures var ids' := ids + {ReplicaID(name, i)};
            && Used(name, ids') == Used(name, ids) + {i}
            && |Matching(name, ids)| <= |Matching(name, ids')| <= |Matching(name, ids)| + 1
            && (i !in Used(name, ids) ==> |Matching(name, ids')| == |Matching(name, ids)| + 1)
  {
    hide Index;
    hide Matches;
    hide ReplicaID;
    hide Used;
    var id := ReplicaID(name, i);
    IndexRoundTrip(name, i);
    UsedAdd(name, ids, id);
    assert Matching(name, ids + {id}) == Matching(name, ids) + {id};
    if i !in Used(name, ids) {
      FreshReplica(name, ids, i);
      assert id !in Matching(name, ids);
    }
  }

  lemma OwnMatch(name: string, existing: seq<string>, ids: set<string>)
    requires Elems(existing) <= Matching(name, ids)
    ensures forall id :: id in existing ==> Matches(name, id)
  {
    hide Matches;
    assert forall id :: id in existing ==> id in Elems(existing);
  }

  lemma FromShrinks(used: set<int>, i: int)
    ensures From(used + {i}, i + 1) <= From(used, i)
    ensures i in used ==> From(used + {i}, i + 1) < From(used, i) && From(used, i + 1) < From(used, i)
  {
    if i in used { assert i in From(used, i) && i !in From(used, i + 1) && i !in From(used + {i}, i + 1); }
  }

  function Missing(replicas: int, have: nat): nat { if replicas > have then replicas - have else 0 }

  /** The starting loop of `Reconcile`, from the survivors `existing`. `complete`: no listing so far
      has failed. A start overwrites a container of that name. Whatever listings fail, success
      leaves at least the wanted number; if none did, exactly that, at the lowest free indices. */
  method Fill(w: World, svc: Service, existing: seq<string>, failures: nat, ghost before: Containers,
              ghost complete: bool)
    returns (ok: bool, ghost listed: bool)
    requires 0 <= svc.spec.replicas <= MAX_INT && OthersKept(svc.name, before, w.containers)
    requires Elems(existing) <= Matching(svc.name, w.containers.Keys)
    requires complete ==>
      && Elems(existing) == Matching(svc.name, w.containers.Keys) && |Elems(existing)| <= svc.spec.replicas
      && Refilled(svc, before, Elems(existing), w.containers)
    requires (complete && failures == 0) ||
             |Matching(svc.name, w.containers.Keys)| + svc.spec.replicas + failures < MAX_INT
    modifies w
    ensures OthersKept(svc.name, before, w.containers)
    ensures (listed ==> complete) && (complete && failures == 0 ==> listed)
    ensures ok ==> |Matching(svc.name, w.containers.Keys)| >= svc.spec.replicas
    ensures ok ==> old(w.containers).Keys <= w.containers.Keys
    ensures listed && ok ==>
      && |Matching(svc.name, w.containers.Keys)| == svc.spec.replicas
      && Refilled(svc, before, Elems(existing), w.containers)
    ensures listed && |Elems(existing)| == svc.spec.replicas ==> ok && w.containers == old(w.containers)
    ensures svc.spec.replicas == 0 ==> ok && w.containers == old(w.containers)
    ensures w.faults >= old(w.faults) && (ok <==> w.faults == old(w.faults))
  {
    hide Index;
    hide Matches;
    hide ReplicaID;
    hide Used;
    hide Refilled;
    hide OthersKept;
    hide Matching;
    hide From;
    hide Ascending;
    var name, replicas := svc.name, svc.spec.replicas;
    ghost var kept, first := Elems(existing), |Matching(name, w.containers.Keys)|;
    OwnMatch(name, existing, w.containers.Keys);
    var used := CollectUsed(name, existing);
    KeptUsed(name, kept, w.containers.Keys);
    UsedOfMatching(name, w.containers.Keys);
    ok := true;
    var i := 1;
    var ids, left := w.ServiceContainers(name, failures);
    if left == failures { ListedCount(name, w.containers.Keys, ids); }
    ghost var stale := left != failures;
    while |ids| < replicas
      invariant 1 <= i && ok && 0 <= left <= failures && old(w.containers).Keys <= w.containers.Keys
      invariant OthersKept(name, before, w.containers) && w.faults == old(w.faults)
      invariant used <= Used(name, w.containers.Keys) && forall j :: 1 <= j < i ==> j in used
      invariant if stale then ids == [] && left < failures else |ids| == |Matching(name, w.containers.Keys)|
      invariant |Matching(name, w.containers.Keys)| + (if stale then 1 else 0) <= first + replicas + (failures - left)
      invariant complete && left == failures ==>
        && used == Used(name, w.containers.Keys) && Refilled(svc, before, kept, w.containers) && |ids| <= replicas
        && (first == replicas ==> w.containers == old(w.containers))
      invariant replicas == 0 ==> w.containers == old(w.containers)
      decreases left, Missing(replicas, |Matching(name, w.containers.Keys)|),
                From(Used(name, w.containers.Keys), i), stale
    {
      ghost var now := w.containers;
      LowestFree(name, now.Keys, i);
      FromShrinks(Used(name, now.Keys), i);
      if i in used {
        i := i + 1;
        continue;
      }
      StartOne(name, now.Keys, i);
      if complete && left == failures { FillOne(svc, before, kept, now, i); }
      ok := w.StartReplica(svc, i);
      OthersAfterStart(svc, before, now, w.containers, i);
      if !ok { return ok, complete && left == failures; }
      assert w.containers.Keys == now.Keys + {ReplicaID(name, i)};
      used := used + {i};
      i := i + 1;
      var left';
      ids, left' := w.ServiceContainers(name, left);
      stale := left' != left;
      if !stale { ListedCount(name, w.containers.Keys, ids); }
      left := left';
    }
    listed := complete && left == failures;
  }

  /** `Reconcile`. On success the service has exactly the desired number of containers: the
      lexicographically first ones survive untouched, and missing ones are added at the lowest
      free indices. A converged service is left alone. All this if every listing of the directory
      succeeded (`listed`); if some failed, success still means at least that number. Only what the
      first listing showed is deleted, so when that one failed (`ids` is empty) a service scaled
      to zero keeps everything and the call succeeds. Nothing outside the prefix changes. */
  method Reconcile(w: World, stored: Option<Service>, failures: nat)
    returns (ok: bool, ghost ids: seq<string>, ghost listed: bool)
    requires stored.Some? ==> 0 <= stored.value.spec.replicas <= MAX_INT
    requires stored.Some? && failures > 0 ==>
      |Matching(stored.value.name, w.containers.Keys)| + stored.value.spec.replicas + failures < MAX_INT
    modifies w
    ensures failures == 0 ==> listed
    ensures stored.None? ==> !ok && w.containers == old(w.containers)
    ensures w.faults >= old(w.faults) && (stored.Some? ==> (ok <==> w.faults == old(w.faults)))
    ensures stored.Some? ==> OthersKept(stored.value.name, old(w.containers), w.containers)
    ensures stored.Some? ==> ids == [] || Elems(ids) == Matching(stored.value.name, old(w.containers).Keys)
    ensures stored.Some? && ok ==>
      && |Matching(stored.value.name, w.containers.Keys)| >= stored.value.spec.replicas
      && old(w.containers).Keys - Elems(ids) <= w.containers.Keys
    ensures stored.Some? && stored.value.spec.replicas == 0 && ids == [] ==> ok && w.containers == old(w.containers)
    ensures stored.Some? && ok && listed ==>
      var svc := stored.value;
      && Ascending(ids) && Elems(ids) == Matching(svc.name, old(w.containers).Keys)
      && |Matching(svc.name, w.containers.Keys)| == svc.spec.replicas
      && Refilled(svc, old(w.containers), Elems(Take(ids, svc.spec.replicas)), w.containers)
    ensures stored.Some? && |Matching(stored.value.name, old(w.containers).Keys)| == stored.value.spec.replicas ==>
      listed ==> ok && w.containers == old(w.containers)
  {
    hide Index;
    hide Matches;
    hide ReplicaID;
    if stored.None? { return false, [], true; }
    var svc := stored.value;
    var name, replicas := svc.name, svc.spec.replicas;
    ghost var before := w.containers;
    var found, left := w.ServiceContainers(name, failures);
    ids, listed := found, left == failures;
    if listed { ListedCount(name, before.Keys, ids); }
    var existing;
    existing, ok := Shrink(w, name, found, replicas);
    if !ok { return; }
    if !listed {
      assert w.containers == before;
    } else {
      Shrunk(svc, before, ids, existing);
      AscendingPart(ids, existing);
      NoDupsCount(existing);
      if |ids| == replicas { assert Elems(ids) - Elems(existing) == {}; }
    }
    ok, listed := Fill(w, svc, existing, left, before, listed);
  }

  function From(used: set<int>, i: int): set<int> { set u | u in used && u >= i }

  lemma AscendingPart(ids: seq<string>, part: seq<string>)
    requires Ascending(ids) && part <= ids
    ensures Ascending(part) && NoDups(part)
  {
    assert forall k :: 0 <= k < |part| ==> part[k] == ids[k];
    AscendingNoDups(part);
  }

  lemma ListedCount(name: string, ids: set<string>, listed: seq<string>)
    requires Ascending(listed) && Elems(listed) == Matching(name, ids)
    ensures |listed| == |Matching(name, ids)|
  {
    AscendingNoDups(listed);
    NoDupsCount(listed);
  }

  /** A start, successful or not, touches at most the container it creates. */
  lemma OthersAfterStart(svc: Service, before: Containers, mid: Containers, after: Containers, i: nat)
    requires OthersKept(svc.name, before, mid)
    requires after - {ReplicaID(svc.name, i)} == mid - {ReplicaID(svc.name, i)}
    ensures OthersKept(svc.name, before, after)
  {
    ReplicaMatches(svc.name, i);
    hide Index;
    hide Matches;
    hide ReplicaID;
    var id := ReplicaID(svc.name, i);
    forall d | !Matches(svc.name, d) ensures (d in before <==> d in after) && (d in before ==> after[d] == before[d]) {
      assert d in after - {id} <==> d in after;
      assert d in mid - {id} <==> d in mid;
      if d in after { assert (after - {id})[d] == (mid - {id})[d]; }
    }
  }

  // ---- rolling replacement ----

  /** The start of the batch of size `p` that position `j` falls into. */
  function BatchOf(j: nat, p: nat): nat
    requires p >= 1
  {
    if j < p then 0 else p + BatchOf(j - p, p)
  }

  /** The index the replacement of `ids[j]` is started at. */
  function TargetIndex(name: string, ids: seq<string>, parallelism: nat, j: nat): (i: nat)
    requires j < |ids| && Matches(name, ids[j]) && parallelism >= 1
    ensures i >= 1
  {
    if Index(name, ids[j]) > 0 then Index(name, ids[j]) else BatchOf(j, parallelism) + 1
  }

  /** A name without a positive index is replaced by the number of its batch's first container. */
  lemma {:induction false} BatchStarts(j: nat, p: nat)
    requires p >= 1
    ensures BatchOf(j, p) <= j < BatchOf(j, p) + p && exists q: nat :: BatchOf(j, p) == p * q
  {
    if j < p {
      assert BatchOf(j, p) == p * 0;
    } else {
      BatchStarts(j - p, p);
      var q: nat :| BatchOf(j - p, p) == p * q;
      assert BatchOf(j, p) == p * (q + 1);
    }
  }

  ghost predicate AllMatch(name: string, ids: seq<string>) {
    forall k :: 0 <= k < |ids| ==> Matches(name, ids[k])
  }

  /** The containers after the first `j` replacements when every deletion succeeds. */
  ghost function Replaced(svc: Service, m: Containers, ids: seq<string>, p: nat, j: nat): Containers
    requires AllMatch(svc.name, ids) && j <= |ids| && p >= 1
  {
    if j == 0 then m
    else
      var id := ReplicaID(svc.name, TargetIndex(svc.name, ids, p, j - 1));
      (Replaced(svc, m, ids, p, j - 1) - {ids[j - 1]})[id := svc.spec.config]
  }

  /** The containers with the first `j` of `ids` on configuration `cfg`. */
  function Rolled(m: Containers, ids: seq<string>, j: nat, cfg: Config): Containers
    requires j <= |ids|
  {
    m + map id | id in ids[..j] :: cfg
  }

  lemma RolledOne(m: Containers, ids: seq<string>, j: nat, cfg: Config)
    requires j < |ids|
    ensures Rolled(m, ids, j + 1, cfg) == Rolled(m, ids, j, cfg)[ids[j] := cfg]
  {
    assert ids[..j + 1] == ids[..j] + [ids[j]];
  }

  lemma RolledKeys(m: Containers, ids: seq<string>, j: nat, cfg: Config)
    requires j <= |ids| && Elems(ids) <= m.Keys
    ensures Rolled(m, ids, j, cfg).Keys == m.Keys
    ensures forall id :: id in m ==> Rolled(m, ids, j, cfg)[id] == if id in ids[..j] then cfg else m[id]
  {
    assert forall id :: id in ids[..j] ==> id in Elems(ids);
  }

  /** All of `ids` but possibly one are present. */
  ghost predicate AtMostOneMissing(ids: seq<string>, present: set<string>) {
    exists x :: Elems(ids) - {x} <= present
  }

  ghost predicate AllCanonical(name: string, ids: seq<string>) {
    forall k :: 0 <= k < |ids| ==> Canonical(name, ids[k])
  }

  /** No moment recorded since `base` misses more than one of `ids`. */
  ghost predicate NeverTwoMissing(ids: seq<string>, history: seq<set<string>>, base: nat) {
    forall k :: base <= k < |history| ==> AtMostOneMissing(ids, history[k])
  }

  /** One turn of the inner loop: delete, ignoring failure, and start the replacement. */
  method ReplaceOne(w: World, svc: Service, ghost before: Containers, list: seq<string>, p: nat, j: nat, idx: nat)
    returns (ok: bool, ghost deleted: bool)
    requires AllMatch(svc.name, list) && j < |list| && p >= 1 && Elems(list) <= before.Keys
    requires idx == TargetIndex(svc.name, list, p, j)
    modifies w
    ensures old(w.history) <= w.history && w.faults >= old(w.faults) && (!ok ==> w.faults > old(w.faults))
    ensures ok && deleted && old(w.containers) == Replaced(svc, before, list, p, j) ==>
      w.containers == Replaced(svc, before, list, p, j + 1)
    ensures AllCanonical(svc.name, list) && old(w.containers) == Rolled(before, list, j, svc.spec.config) ==>
      && NeverTwoMissing(list, w.history, |old(w.history)|)
      && w.containers - {list[j]} == old(w.containers) - {list[j]}
      && (ok ==> w.containers == Rolled(before, list, j + 1, svc.spec.config))
  {
    hide Index;
    hide Matches;
    hide ReplicaID;
    var id := list[j];
    deleted := w.Delete(id);
    ghost var left := w.containers.Keys;
    ok := w.StartReplica(svc, idx);
    RolledOne(before, list, j, svc.spec.config);
    if AllCanonical(svc.name, list) && old(w.containers) == Rolled(before, list, j, svc.spec.config) {
      assert Canonical(svc.name, list[j]) && ReplicaID(svc.name, idx) == id;
      RolledKeys(before, list, j, svc.spec.config);
      forall k | |old(w.history)| <= k < |w.history| ensures AtMostOneMissing(list, w.history[k]) {
        assert Elems(list) - {id} <= left - {id} == w.history[k] - {id};
        assert w.history[k] - {id} <= w.history[k];
      }
    }
  }

  /** With canonical names: the first `done` containers run `cfg`, those after `done` what they ran
      before. */
  ghost predicate Partway(before: Containers, ids: seq<string>, done: nat, now: Containers, cfg: Config) {
    forall k :: 0 <= k < |ids| && k != done ==>
      ids[k] in now && ids[k] in before && now[ids[k]] == if k < done then cfg else before[ids[k]]
  }

  lemma RolledIsPartway(before: Containers, ids: seq<string>, done: nat, now: Containers, cfg: Config)
    requires NoDups(ids) && Elems(ids) <= before.Keys && done <= |ids|
    requires now == Rolled(before, ids, done, cfg) ||
             (done < |ids| && now - {ids[done]} == Rolled(before, ids, done, cfg) - {ids[done]})
    ensures Partway(before, ids, done, now, cfg)
  {
    RolledKeys(before, ids, done, cfg);
    var r := Rolled(before, ids, done, cfg);
    forall k | 0 <= k < |ids| && k != done
      ensures ids[k] in now && ids[k] in before && now[ids[k]] == if k < done then cfg else before[ids[k]]
    {
      assert ids[k] in Elems(ids);
      assert ids[k] in ids[..done] <==> k < done by {
        if k < done { assert ids[..done][k] == ids[k]; }
      }
      if now != r {
        assert ids[k] in r - {ids[done]} && ids[k] in now - {ids[done]};
        assert (now - {ids[done]})[ids[k]] == (r - {ids[done]})[ids[k]];
      }
    }
  }

  /** `rollingReplace`. `cleanly`: no deletion failed. With canonical names, however it ends, the
      first `done` containers run the new configuration and those after `done` the old one, and
      at no moment was more than one missing; on success all are replaced and none is lost. */
  method RollingReplace(w: World, svc: Service, pullOk: bool, failures: nat)
    returns (ok: bool, ghost ids: seq<string>, ghost done: nat, ghost cleanly: bool)
    requires 0 <= svc.spec.replicas <= MAX_INT
    requires failures > 0 ==> |Matching(svc.name, w.containers.Keys)| + svc.spec.replicas + failures < MAX_INT
    modifies w
    ensures Ascending(ids) && done <= |ids|
    ensures failures == 0 || ids != [] ==> Elems(ids) == Matching(svc.name, old(w.containers).Keys)
    ensures !pullOk ==> !ok && w.containers == old(w.containers)
    ensures w.faults >= old(w.faults) && (!ok && pullOk ==> w.faults > old(w.faults))
    ensures ok && ids != [] ==> done == |ids|
    ensures ids != [] && AllCanonical(svc.name, ids) ==>
      && Partway(old(w.containers), ids, done, w.containers, svc.spec.config)
      && NeverTwoMissing(ids, w.history, |old(w.history)|)
      && (ok ==> w.containers == Rolled(old(w.containers), ids, |ids|, svc.spec.config))
    ensures AllMatch(svc.name, ids)
    ensures ok && ids != [] && cleanly ==>
      var p := if svc.spec.parallelism < 1 then 1 else svc.spec.parallelism;
      w.containers == Replaced(svc, old(w.containers), ids, p, |ids|)
    ensures ids == [] ==> OthersKept(svc.name, old(w.containers), w.containers)
    ensures ids == [] && ok ==>
      |Matching(svc.name, w.containers.Keys)| >= svc.spec.replicas
    ensures ids == [] && ok && failures == 0 ==>
      |Matching(svc.name, w.containers.Keys)| == svc.spec.replicas && Refilled(svc, old(w.containers), {}, w.containers)
  {
    hide *;
    done, cleanly := 0, true;
    var list, left := w.ServiceContainers(svc.name, failures);
    ids := list;
    ghost var before, cfg, base := w.containers, svc.spec.config, |w.history|;
    NoneAscend();
    MembersMatch(svc.name, before.Keys, list);
    AscendingNoDups(list);
    StartingPoint(svc, before, list, w.history);
    OthersKeptAtFirst(svc.name, before);
    if !pullOk {
      RolledIsPartway(before, list, 0, w.containers, cfg);
      return false, ids, done, cleanly;
    }
    var parallelism := svc.spec.parallelism;
    if parallelism < 1 { parallelism := 1; }
    var start := 0;
    assert BatchOf(0, parallelism) == 0 by { BatchZero(parallelism); }
    while start < |list|
      invariant 0 <= start && BatchOf(start, parallelism) == start && done == (if start < |list| then start else |list|)
      invariant old(w.history) <= w.history && (list == [] ==> w.containers == before) && w.faults >= old(w.faults)
      invariant AllCanonical(svc.name, list) ==>
        w.containers == Rolled(before, list, done, cfg) && NeverTwoMissing(list, w.history, base)
      invariant cleanly ==> w.containers == Replaced(svc, before, list, parallelism, done)
    {
      var end := start + parallelism;
      if end > |list| { end := |list|; }
      for j := start to end
        invariant done == j && old(w.history) <= w.history && w.faults >= old(w.faults)
        invariant AllCanonical(svc.name, list) ==>
          w.containers == Rolled(before, list, j, cfg) && NeverTwoMissing(list, w.history, base)
        invariant cleanly ==> w.containers == Replaced(svc, before, list, parallelism, j)
      {
        MatchAt(svc.name, list, j);
        var idx := Index(svc.name, list[j]);
        if idx <= 0 { idx := start + 1; }
        assert idx == TargetIndex(svc.name, list, parallelism, j) by {
          BatchTarget(svc.name, list, parallelism, j, start);
        }
        ghost var deleted, sofar := false, w.history;
        ok, deleted := ReplaceOne(w, svc, before, list, parallelism, j, idx);
        cleanly := cleanly && deleted;
        if AllCanonical(svc.name, list) { HistoryJoins(list, sofar, w.history, base); }
        if !ok {
          if AllCanonical(svc.name, list) { RolledIsPartway(before, list, j, w.containers, cfg); }
          return;
        }
        done := j + 1;
      }
      BatchNext(start, parallelism);
      start := start + parallelism;
    }
    if |list| == 0 {
      ghost var refilled, listed;
      ok, refilled, listed := Reconcile(w, Some(svc), left);
      if ok && failures == 0 { NothingListed(refilled, list, svc.spec.replicas); }
      return;
    }
    if AllCanonical(svc.name, list) { RolledIsPartway(before, list, |list|, w.containers, cfg); }
    ok := true;
  }

  lemma StartingPoint(svc: Service, before: Containers, list: seq<string>, history: seq<set<string>>)
    requires AllMatch(svc.name, list)
    ensures Rolled(before, list, 0, svc.spec.config) == before
    ensures forall p: nat :: p >= 1 ==> Replaced(svc, before, list, p, 0) == before
    ensures NeverTwoMissing(list, history, |history|)
  {
  }

  lemma NoneAscend()
    ensures Ascending([])
  {
  }

  lemma OthersKeptAtFirst(name: string, m: Containers)
    ensures OthersKept(name, m, m)
  {
  }

  lemma NothingListed(ids: seq<string>, list: seq<string>, k: nat)
    requires list == [] && Elems(ids) == Elems(list)
    ensures Elems(Take(ids, k)) == {}
  {
    assert forall x :: x in ids <==> x in Elems(ids);
    assert forall x :: x in Take(ids, k) ==> x in ids;
  }

  lemma BatchZero(p: nat)
    requires p >= 1
    ensures BatchOf(0, p) == 0
  {
  }

  lemma BatchNext(start: nat, p: nat)
    requires p >= 1 && BatchOf(start, p) == start
    ensures BatchOf(start + p, p) == start + p
  {
  }

  lemma MatchAt(name: string, ids: seq<string>, j: nat)
    requires AllMatch(name, ids) && j < |ids|
    ensures Matches(name, ids[j])
  {
  }

  lemma BatchTarget(name: string, ids: seq<string>, p: nat, j: nat, start: nat)
    requires AllMatch(name, ids) && j < |ids| && p >= 1 && BatchOf(start, p) == start && start <= j < start + p
    ensures Matches(name, ids[j])
    ensures TargetIndex(name, ids, p, j) == if Index(name, ids[j]) > 0 then Index(name, ids[j]) else start + 1
  {
    hide Index;
    hide Matches;
    MatchAt(name, ids, j);
    BatchStart(j, start, p);
  }

  lemma HistoryJoins(ids: seq<string>, sofar: seq<set<string>>, history: seq<set<string>>, base: nat)
    requires sofar <= history && NeverTwoMissing(ids, sofar, base) && NeverTwoMissing(ids, history, |sofar|)
    ensures NeverTwoMissing(ids, history, base)
  {
    forall k | base <= k < |history| ensures AtMostOneMissing(ids, history[k]) {
      if k < |sofar| { assert history[k] == sofar[k]; }
    }
  }

  lemma MembersMatch(name: string, keys: set<string>, ids: seq<string>)
    requires ids == [] || Elems(ids) == Matching(name, keys)
    ensures AllMatch(name, ids) && Elems(ids) <= keys
  {
    hide Matches;
    forall k | 0 <= k < |ids| ensures Matches(name, ids[k]) && ids[k] in keys { assert ids[k] in Elems(ids); }
  }

  /** `j` lies in the batch that starts at `start`. */
  lemma {:induction false} BatchStart(j: nat, start: nat, p: nat)
    requires p >= 1 && BatchOf(start, p) == start && start <= j < start + p
    ensures BatchOf(j, p) == start
  {
    if start > 0 { BatchStart(j - p, start - p, p); }
  }

  /** What `startReplica` writes is canonical. */
  lemma TargetCanonical(name: string, ids: seq<string>, p: nat, j: nat)
    requires AllMatch(name, ids) && j < |ids| <= MAX_INT && p >= 1
    ensures Matches(name, ids[j]) && Canonical(name, ReplicaID(name, TargetIndex(name, ids, p, j)))
  {
    MatchAt(name, ids, j);
    BatchBelow(j, p);
    IndexInRange(name, ids[j]);
    IndexRoundTrip(name, TargetIndex(name, ids, p, j));
  }

  lemma {:induction false} BatchBelow(j: nat, p: nat)
    requires p >= 1
    ensures BatchOf(j, p) <= j
  {
    if j >= p { BatchBelow(j - p, p); }
  }

  lemma IndexInRange(name: string, id: string)
    requires Matches(name, id)
    ensures Index(name, id) <= MAX_INT
  {
  }

  lemma {:induction false} ForeignNameGone(svc: Service, m: Containers, ids: seq<string>, p: nat, j: nat, k: nat)
    requires AllMatch(svc.name, ids) && k < j <= |ids| <= MAX_INT && p >= 1 && !Canonical(svc.name, ids[k])
    ensures ids[k] !in Replaced(svc, m, ids, p, j)
  {
    hide Index;
    hide Matches;
    hide ReplicaID;
    hide TargetIndex;
    TargetCanonical(svc.name, ids, p, j - 1);
    if k < j - 1 { ForeignNameGone(svc, m, ids, p, j - 1, k); }
  }

  lemma {:induction false} CanonicalNamesStay(svc: Service, m: Containers, ids: seq<string>, p: nat, j: nat)
    requires AllMatch(svc.name, ids) && AllCanonical(svc.name, ids) && j <= |ids| && p >= 1 && Elems(ids) <= m.Keys
    ensures Replaced(svc, m, ids, p, j).Keys == m.Keys
  {
    hide Index;
    hide Matches;
    hide ReplicaID;
    if j > 0 {
      CanonicalNamesStay(svc, m, ids, p, j - 1);
      assert Canonical(svc.name, ids[j - 1]) && ids[j - 1] in Elems(ids);
    }
  }

  /** A rolling replacement in which nothing fails preserves the set of containers exactly when
      every container of the service carries a name the service itself would write. Names such
      as `swarm-web-007`, or those of a service called `web-...`, are not among them. */
  lemma ReplaceKeepsNamesIff(svc: Service, m: Containers, ids: seq<string>, p: nat)
    requires AllMatch(svc.name, ids) && |ids| <= MAX_INT && p >= 1 && Elems(ids) <= m.Keys
    ensures Replaced(svc, m, ids, p, |ids|).Keys == m.Keys <==> AllCanonical(svc.name, ids)
  {
    hide Replaced;
    hide Canonical;
    if AllCanonical(svc.name, ids) {
      CanonicalNamesStay(svc, m, ids, p, |ids|);
    } else {
      var k :| 0 <= k < |ids| && !Canonical(svc.name, ids[k]);
      ForeignNameGone(svc, m, ids, p, |ids|, k);
      assert ids[k] in Elems(ids);
    }
  }

  // ---- updating and rolling back ----

  /** The record `UpdateService` writes; it insists on an image. */
  function Update(svc: Service, image: string): Option<Service> {
    if image == "" then None
    else Some(svc.(spec := svc.spec.(config := svc.spec.config.(image := image)), previous := Some(svc.spec)))
  }

  /** The record `RollbackService` writes. */
  function Rollback(svc: Service): Option<Service> {
    if svc.previous.None? then None else Some(svc.(spec := svc.previous.value, previous := Some(svc.spec)))
  }

  /** An update wants an image, stores it and the specification it replaces, and changes nothing else;
      a rollback wants a stored specification. */
  lemma UpdateStores(svc: Service, image: string)
    ensures Update(svc, image).None? <==> image == ""
    ensures image != "" ==>
      var up := Update(svc, image).value;
      && up.name == svc.name && up.previous == Some(svc.spec)
      && up.spec.config.image == image && up.spec.config.body == svc.spec.config.body
      && up.spec.replicas == svc.spec.replicas && up.spec.parallelism == svc.spec.parallelism
    ensures Rollback(svc).None? <==> svc.previous.None?
  {
  }

  /** `UpdateService`; `storeOk` is the outcome of writing the record. Without an image, or if the record
      cannot be written, nothing happens. Otherwise the stored record has the new image and the old
      specification, and on success every canonically named container runs the new image, with
      everything else as the specification says, while no other container has changed. */
  method UpdateService(w: World, svc: Service, image: string, storeOk: bool, pullOk: bool, failures: nat)
    returns (ok: bool, stored: Service)
    requires 0 <= svc.spec.replicas <= MAX_INT
    requires failures > 0 ==> |Matching(svc.name, w.containers.Keys)| + svc.spec.replicas + failures < MAX_INT
    modifies w
    ensures stored == if image == "" || !storeOk then svc else
      Service(svc.name, svc.spec.(config := Config(image, svc.spec.config.body)), Some(svc.spec))
    ensures image == "" || !storeOk || !pullOk ==> !ok && w.containers == old(w.containers)
    ensures image != "" && storeOk && pullOk && !ok ==> w.faults > old(w.faults)
    ensures var own := Matching(svc.name, old(w.containers).Keys);
      ok && failures == 0 && own != {} && (forall id :: id in own ==> Canonical(svc.name, id)) ==>
        w.containers.Keys == old(w.containers).Keys && forall id :: id in w.containers ==>
          w.containers[id] ==
            if Matches(svc.name, id) then Config(image, svc.spec.config.body) else old(w.containers)[id]
    ensures ok && Matching(svc.name, old(w.containers).Keys) == {} ==>
      |Matching(svc.name, w.containers.Keys)| >= svc.spec.replicas
  {
    stored := svc;
    var up := Update(svc, image);
    if up.None? || !storeOk { return false, svc; }
    stored := up.value;
    ghost var m, ids, done, cleanly := w.containers, [], 0, true;
    ok, ids, done, cleanly := RollingReplace(w, stored, pullOk, failures);
    hide Canonical;
    hide Matches;
    hide Replaced;
    hide Partway;
    hide Matching;
    NoElems(ids);
    if ok && failures == 0 && Matching(svc.name, m.Keys) != {}
       && forall id :: id in Matching(svc.name, m.Keys) ==> Canonical(svc.name, id) {
      AllListed(svc.name, m.Keys, ids);
      RolledKeys(m, ids, |ids|, stored.spec.config);
      assert ids[..|ids|] == ids;
    }
  }

  lemma NoElems(ids: seq<string>)
    ensures Elems(ids) == {} ==> ids == []
  {
    if ids != [] { assert ids[0] in Elems(ids); }
  }

  lemma AllListed(name: string, keys: set<string>, ids: seq<string>)
    requires Elems(ids) == Matching(name, keys) && Matching(name, keys) != {}
    requires forall id :: id in Matching(name, keys) ==> Canonical(name, id)
    ensures ids != [] && AllCanonical(name, ids) && Elems(ids) <= keys
    ensures forall id :: id in keys ==> (id in ids <==> Matches(name, id))
  {
    hide Canonical;
    hide Matches;
    assert forall id :: id in ids <==> id in Elems(ids);
    assert ids == [] ==> Elems(ids) == {};
  }

  /** Rolling back undoes an update, in the record and in the containers: a service whose
      canonically named containers all ran its configuration is back where it was. Two rollbacks
      in a row change nothing. */
  lemma RollbackUndoesUpdate(svc: Service, image: string, m: Containers, ids: seq<string>)
    requires image != "" && Elems(ids) <= m.Keys && forall id :: id in ids ==> m[id] == svc.spec.config
    ensures var up := Update(svc, image).value;
            && Rollback(up).Some?
            && var back := Rollback(up).value;
               && back.spec == svc.spec
               && Rolled(Rolled(m, ids, |ids|, up.spec.config), ids, |ids|, back.spec.config) == m
               && Rollback(back) == Some(up)
  {
    var cfg := Update(svc, image).value.spec.config;
    var mid := Rolled(m, ids, |ids|, cfg);
    RolledKeys(m, ids, |ids|, cfg);
    RolledKeys(mid, ids, |ids|, svc.spec.config);
    assert ids[..|ids|] == ids;
    forall id | id in m ensures Rolled(mid, ids, |ids|, svc.spec.config)[id] == m[id] {
      assert id in ids <==> id in Elems(ids);
    }
  }

  /** The same through the containers: after an update and a rollback that both succeed, every
      container is what it was, whatever order and batches the replacements went in. */
  method UpdateThenRollback(w: World, svc: Service, image: string, pullOk: bool, pullAgainOk: bool)
    returns (ok: bool, back: Service)
    requires image != "" && 0 <= svc.spec.replicas <= MAX_INT && Matching(svc.name, w.containers.Keys) != {}
    requires forall id :: id in Matching(svc.name, w.containers.Keys) ==>
      Canonical(svc.name, id) && w.containers[id] == svc.spec.config
    modifies w
    ensures ok ==>
      && w.containers == old(w.containers)
      && back == Service(svc.name, svc.spec, Some(svc.spec.(config := Config(image, svc.spec.config.body))))
    ensures pullOk && pullAgainOk && !ok ==> w.faults > old(w.faults)
  {
    hide Rolled;
    hide Replaced;
    hide Canonical;
    hide AllCanonical;
    hide Matching;
    hide Refilled;
    hide OthersKept;
    hide Partway;
    hide NeverTwoMissing;
    hide Ascending;
    hide Elems;
    back := svc;
    ghost var m := w.containers;
    var up := Update(svc, image).value;
    ghost var ids, done, cleanly;
    ok, ids, done, cleanly := RollingReplace(w, up, pullOk, 0);
    if !ok { return; }
    OwnIds(svc.name, m, ids, svc.spec.config);
    RollbackUndoesUpdate(svc, image, m, ids);
    RolledKeys(m, ids, |ids|, up.spec.config);
    back := Rollback(up).value;
    ghost var ids';
    ok, ids', done, cleanly := RollingReplace(w, back, pullAgainOk, 0);
    AscendingUnique(ids, ids');
  }

  lemma OwnIds(name: string, m: Containers, ids: seq<string>, cfg: Config)
    requires Elems(ids) == Matching(name, m.Keys) && Matching(name, m.Keys) != {}
    requires forall id :: id in Matching(name, m.Keys) ==> Canonical(name, id) && m[id] == cfg
    ensures ids != [] && AllCanonical(name, ids) && Elems(ids) <= m.Keys && forall id :: id in ids ==> m[id] == cfg
  {
    hide Canonical;
    assert forall id :: id in ids ==> id in Elems(ids);
    assert ids == [] ==> Elems(ids) == {};
  }
}
