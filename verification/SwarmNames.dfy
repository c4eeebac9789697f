/** internal/swarm/service.go: whose container a name belongs to, and the order of a service's
    containers by name and by index. */
module SwarmNames {
  import opened Text
  import opened Swarm

  // ---- whose container it is ----

  /** A container of service `b` counts as one of service `a` exactly when `b` is `a`, or `a`
      followed by a dash and more. */
  lemma ClaimsIff(a: string, b: string, i: nat)
    ensures Matches(a, ReplicaID(b, i)) <==> a + "-" <= b + "-"
  {
    var x, y, d := a + "-", b + "-", Itoa(i);
    assert Prefix(a) == "swarm-" + x && ReplicaID(b, i) == "swarm-" + (y + d);
    assert Prefix(a) <= ReplicaID(b, i) <==> x <= y + d by { PrefixAfter("swarm-", x, y + d); }
    if |x| > |y| {
      assert x[|x| - 1] == '-';
      assert |x| <= |y + d| ==> (y + d)[|x| - 1] == d[|x| - 1 - |y|] && IsDigit(d[|x| - 1 - |y|]);
    }
  }

  lemma PrefixAfter(p: string, x: string, y: string)
    ensures p + x <= p + y <==> x <= y
  {
    if p + x <= p + y {
      assert x == (p + x)[|p|..] && y == (p + y)[|p|..];
      assert forall k :: 0 <= k < |x| ==> x[k] == (p + x)[|p| + k] && y[k] == (p + y)[|p| + k];
    }
  }

  /** What `Reconcile` and `Shrink` promise for service `a` protects the containers of `b` exactly
      when `a` does not claim them: they stay if it does not, and emptying `a` takes them if it
      does. */
  lemma OtherServiceKeptIff(a: string, b: string, i: nat, before: Containers)
    requires ReplicaID(b, i) in before
    ensures ReplicaID(b, i) in before - Matching(a, before.Keys) <==> !(a + "-" <= b + "-")
    ensures !(a + "-" <= b + "-") ==>
      forall after :: OthersKept(a, before, after) ==>
          ReplicaID(b, i) in after && after[ReplicaID(b, i)] == before[ReplicaID(b, i)]
  {
    ClaimsIff(a, b, i);
    hide Matches;
    hide ReplicaID;
  }

  /** Two services, `web` and `web-api`, with one container each: reconciling `web`, which wants
      the one it has, deletes the other's. */
  method ReconcileTakesOther(w: World, cfg: Config) returns (ok: bool)
    requires w.containers.Keys == {ReplicaID("web", 1), ReplicaID("web-api", 1)}
    modifies w
    ensures ok ==> w.containers.Keys == {ReplicaID("web", 1)}
  {
    ClaimsIff("web", "web", 1);
    ClaimsIff("web", "web-api", 1);
    assert "web-" <= "web-api-";
    var mine, other := ReplicaID("web", 1), ReplicaID("web-api", 1);
    WebFirst();
    hide ReplicaID;
    hide Matches;
    hide FreshlyFilled;
    ghost var before := w.containers;
    assert Matching("web", before.Keys) == {mine, other};
    ghost var ids, listed;
    ok, ids, listed := Reconcile(w, Some(Service("web", Spec(cfg, 1, 1), None)), 0);
    if ok {
      TwoAscend(ids, mine, other);
      OnlyMine("web", before, w.containers, mine);
    }
  }

  lemma WebFirst()
    ensures Less(ReplicaID("web", 1), ReplicaID("web-api", 1))
  {
    var p := "swarm-web-";
    assert ReplicaID("web", 1) == p + "1" && ReplicaID("web-api", 1) == p + "api-1";
    LessAfterPrefix(p, "1", "api-1");
  }

  lemma TwoAscend(ids: seq<string>, x: string, y: string)
    requires Ascending(ids) && Elems(ids) == {x, y} && Less(x, y)
    ensures Elems(Take(ids, 1)) == {x}
  {
    LessIrreflexive(x);
    assert Ascending([x, y]) && Elems([x, y]) == {x, y};
    AscendingUnique(ids, [x, y]);
    assert Elems([x]) == {x};
  }

  lemma OnlyMine(name: string, before: Containers, after: Containers, x: string)
    requires OthersKept(name, before, after) && |Matching(name, after.Keys)| == 1 && x in Matching(name, after.Keys)
    requires forall id :: id in before ==> Matches(name, id)
    ensures after.Keys == {x}
  {
    hide Matches;
    SubsetCard({x}, Matching(name, after.Keys));
    assert forall id :: id in after ==> Matches(name, id);
  }

  // ---- order by name and order by index ----

  lemma {:induction false} LessAfterPrefix(p: string, a: string, b: string)
    ensures Less(p + a, p + b) <==> Less(a, b)
  {
    if p == [] {
      assert p + a == a && p + b == b;
    } else {
      LessAfterPrefix(p[1..], a, b);
      assert (p + a)[1..] == p[1..] + a && (p + b)[1..] == p[1..] + b;
    }
  }

  lemma {:induction false} LessConcat(a: string, x: string, b: string, y: string)
    requires |a| == |b|
    ensures Less(a + x, b + y) <==> Less(a, b) || (a == b && Less(x, y))
  {
    if a == [] {
      assert a + x == x && b + y == y;
    } else {
      LessConcat(a[1..], x, b[1..], y);
      assert (a + x)[1..] == a[1..] + x && (b + y)[1..] == b[1..] + y;
      assert a == [a[0]] + a[1..] && b == [b[0]] + b[1..];
    }
  }

  function Digits(i: nat): nat { |Itoa(i)| }

  /** `j` without its last `k` digits. */
  function Lead(j: nat, k: nat): nat { if k == 0 then j else Lead(j / 10, k - 1) }

  lemma {:induction false} LeadDigits(j: nat, k: nat)
    requires k < Digits(j)
    ensures Itoa(Lead(j, k)) == Itoa(j)[..Digits(j) - k]
  {
    if k > 0 { LeadDigits(j / 10, k - 1); }
  }

  lemma OneMoreDigit(i: nat)
    requires i >= 10
    ensures Digits(i) == Digits(i / 10) + 1
  {
    assert Itoa(i) == Itoa(i / 10) + Itoa(i % 10) && |Itoa(i % 10)| == 1;
  }

  lemma {:induction false} FewerDigits(i: nat, j: nat)
    requires i <= j
    ensures Digits(i) <= Digits(j)
  {
    if i >= 10 {
      FewerDigits(i / 10, j / 10);
      OneMoreDigit(i);
      OneMoreDigit(j);
    }
  }

  lemma {:induction false} SameDigits(i: nat, j: nat)
    requires Digits(i) == Digits(j)
    ensures Less(Itoa(i), Itoa(j)) <==> i < j
  {
    if i >= 10 && j >= 10 {
      SameDigits(i / 10, j / 10);
      ItoaInjective(i / 10, j / 10);
      LessConcat(Itoa(i / 10), Itoa(i % 10), Itoa(j / 10), Itoa(j % 10));
    }
  }

  /** For indices of equal length the order of names is that of indices; a shorter index comes
      first exactly when it does not exceed the leading digits of the longer one. */
  lemma ReplicaOrderIff(name: string, i: nat, j: nat)
    requires Digits(i) <= Digits(j)
    ensures Less(ReplicaID(name, i), ReplicaID(name, j)) <==>
            if Digits(i) == Digits(j) then i < j else i <= Lead(j, Digits(j) - Digits(i))
  {
    LessAfterPrefix(Prefix(name), Itoa(i), Itoa(j));
    if Digits(i) == Digits(j) {
      SameDigits(i, j);
    } else {
      var k := Digits(j) - Digits(i);
      var lead, tail := Itoa(j)[..Digits(i)], Itoa(j)[Digits(i)..];
      LeadDigits(j, k);
      assert Itoa(j) == lead + tail && Itoa(i) == Itoa(i) + [];
      LessConcat(Itoa(i), [], lead, tail);
      SameDigits(i, Lead(j, k));
      ItoaInjective(i, Lead(j, k));
    }
  }

  /** Whatever the limit, among the service's own replicas `Shrink` leaves lower indices than it
      deletes: it keeps a prefix of the listing, and along the listing their indices ascend. */
  ghost predicate HighestFirst(name: string, ids: seq<string>) {
    forall k, l :: 0 <= k < l < |ids| && Canonical(name, ids[k]) && Canonical(name, ids[l]) ==>
      Index(name, ids[k]) < Index(name, ids[l])
  }

  /** No index of a replica exceeds the leading digits of a longer one. */
  ghost predicate LeadsFit(name: string, ids: seq<string>) {
    forall k, l :: 0 <= k < |ids| && 0 <= l < |ids| && Canonical(name, ids[k]) && Canonical(name, ids[l]) ==>
      LeadFits(Index(name, ids[k]), Index(name, ids[l]))
  }

  predicate LeadFits(i: int, j: int) {
    0 <= i && 0 <= j && Digits(i) < Digits(j) ==> i <= Lead(j, Digits(j) - Digits(i))
  }

  lemma PairInOrder(name: string, i: nat, j: nat)
    requires Less(ReplicaID(name, i), ReplicaID(name, j))
    ensures LeadFits(j, i) ==> i < j
    ensures i < j ==> LeadFits(i, j) && LeadFits(j, i)
  {
    LessIrreflexive(ReplicaID(name, i));
    if Digits(i) <= Digits(j) {
      ReplicaOrderIff(name, i, j);
      if j <= i { FewerDigits(j, i); }
    } else {
      ReplicaOrderIff(name, j, i);
      if i <= j { FewerDigits(i, j); }
      if Less(ReplicaID(name, j), ReplicaID(name, i)) {
        LessTransitive(ReplicaID(name, i), ReplicaID(name, j), ReplicaID(name, i));
      }
    }
  }

  /** Scaling down removes the highest index first, as its comment says, exactly when no index
      exceeds the leading digits of a longer one. Other names in the listing do not matter. */
  lemma HighestFirstIff(name: string, ids: seq<string>)
    requires Ascending(ids)
    ensures HighestFirst(name, ids) <==> LeadsFit(name, ids)
  {
    forall k, l | 0 <= k < l < |ids| && Canonical(name, ids[k]) && Canonical(name, ids[l])
      ensures var i, j := Index(name, ids[k]), Index(name, ids[l]);
              (LeadFits(j, i) ==> i < j) && (i < j ==> LeadFits(i, j) && LeadFits(j, i))
    {
      PairInOrder(name, Index(name, ids[k]), Index(name, ids[l]));
    }
    hide Index;
    hide LeadFits;
    if HighestFirst(name, ids) {
      forall k, l | 0 <= k < |ids| && 0 <= l < |ids| && Canonical(name, ids[k]) && Canonical(name, ids[l])
        ensures LeadFits(Index(name, ids[k]), Index(name, ids[l]))
      {
        if k == l { FitsItself(Index(name, ids[k])); }
      }
    }
  }

  lemma FitsItself(i: int)
    ensures LeadFits(i, i)
  {
  }

  /** For a service whose replicas are numbered 1 to `n`, that is up to nine. */
  lemma NumberedHighestFirstIff(name: string, ids: seq<string>, n: nat)
    requires n <= MAX_INT && Ascending(ids)
    requires forall k :: 0 <= k < |ids| && Canonical(name, ids[k]) ==> Index(name, ids[k]) <= n
    requires forall i: nat :: 1 <= i <= n ==> ReplicaID(name, i) in ids
    ensures HighestFirst(name, ids) <==> n <= 9
  {
    HighestFirstIff(name, ids);
    if n > 9 {
      IndexRoundTrip(name, 9);
      IndexRoundTrip(name, 10);
      assert Canonical(name, ReplicaID(name, 9)) && Canonical(name, ReplicaID(name, 10));
    }
    hide HighestFirst;
    hide Index;
    hide ReplicaID;
    hide Canonical;
    hide LeadFits;
    if n <= 9 {
      forall k, l | 0 <= k < |ids| && 0 <= l < |ids| && Canonical(name, ids[k]) && Canonical(name, ids[l])
        ensures LeadFits(Index(name, ids[k]), Index(name, ids[l]))
      {
        OneDigitFits(Index(name, ids[k]), Index(name, ids[l]));
      }
    } else {
      NineAndTen();
      var k :| 0 <= k < |ids| && ids[k] == ReplicaID(name, 9);
      var l :| 0 <= l < |ids| && ids[l] == ReplicaID(name, 10);
      assert !LeadFits(Index(name, ids[k]), Index(name, ids[l]));
    }
  }

  lemma OneDigitFits(i: int, j: int)
    requires i <= 9 && j <= 9
    ensures LeadFits(i, j)
  {
  }

  lemma NineAndTen()
    ensures !LeadFits(9, 10)
  {
    assert Itoa(10) == "10" && Lead(10, 1) == 1;
  }
}
