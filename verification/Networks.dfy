/** internal/network: address allocation by a persistent counter, and the allocation of subnets to
    named networks. */
module Networks {
  import opened Text

  const CYCLE: nat := 64516  // 254 * 254

  function ThirdOctet(c: nat): nat { c / 254 % 254 }
  function FourthOctet(c: nat): nat { c % 254 + 2 }

  /** The address the counter value `c` stands for. */
  function Address(base: string, c: nat): string {
    base + "." + Itoa(ThirdOctet(c)) + "." + Itoa(FourthOctet(c))
  }

  /** The third octet counts full rounds of the fourth, which starts at 2. */
  lemma AddressReads(base: string, x: nat, y: nat)
    requires x < 254 && y < 254
    ensures Address(base, 254 * x + y) == base + "." + Itoa(x) + "." + Itoa(y + 2)
  {
  }

  lemma OctetRange(c: nat)
    ensures 0 <= ThirdOctet(c) <= 253 && 2 <= FourthOctet(c) <= 255
  {
  }

  lemma OctetsIff(c: nat, d: nat)
    ensures ThirdOctet(c) == ThirdOctet(d) && FourthOctet(c) == FourthOctet(d) <==> c % CYCLE == d % CYCLE
  {
    assert c % CYCLE == 254 * ThirdOctet(c) + c % 254;
    assert d % CYCLE == 254 * ThirdOctet(d) + d % 254;
  }

  /** Text before and after the first dot is determined. */
  lemma {:induction false} DotSplit(a: string, b: string, a': string, b': string)
    requires '.' !in a && '.' !in a' && a + "." + b == a' + "." + b'
    ensures a == a' && b == b'
  {
    var s, t := a + "." + b, a' + "." + b';
    if a == [] || a' == [] {
      assert s[0] == t[0];
      assert s[1..] == t[1..];
      assert a == [] ==> s[1..] == b;
      assert a' == [] ==> t[1..] == b';
    } else {
      assert s[0] == a[0] && t[0] == a'[0];
      assert s[1..] == a[1..] + "." + b && t[1..] == a'[1..] + "." + b';
      DotSplit(a[1..], b, a'[1..], b');
      assert a == [a[0]] + a[1..] && a' == [a'[0]] + a'[1..];
    }
  }

  lemma NoDotInNumber(n: nat)
    ensures '.' !in Itoa(n)
  {
  }

  /** Two counter values give the same address exactly when they agree modulo 64516. */
  lemma CollisionIff(base: string, c: nat, d: nat)
    ensures Address(base, c) == Address(base, d) <==> c % CYCLE == d % CYCLE
  {
    hide Itoa;
    hide ThirdOctet;
    hide FourthOctet;
    OctetsIff(c, d);
    if Address(base, c) == Address(base, d) {
      var x, y, u, v := Itoa(ThirdOctet(c)), Itoa(FourthOctet(c)), Itoa(ThirdOctet(d)), Itoa(FourthOctet(d));
      var k := |base| + 1;
      assert Address(base, c)[k..] == x + "." + y && Address(base, d)[k..] == u + "." + v;
      NoDotInNumber(ThirdOctet(c));
      NoDotInNumber(ThirdOctet(d));
      DotSplit(x, y, u, v);
      ItoaInjective(ThirdOctet(c), ThirdOctet(d));
      ItoaInjective(FourthOctet(c), FourthOctet(d));
    }
  }

  /** A window of 64516 consecutive counter values never repeats an address. */
  lemma NoRepeatWithinCycle(base: string, c: nat, d: nat)
    requires c < d < c + CYCLE
    ensures Address(base, c) != Address(base, d)
  {
    CollisionIff(base, c, d);
    SameResidue(c, d);
  }

  lemma SameResidue(c: nat, d: nat)
    requires c < d < c + CYCLE
    ensures c % CYCLE != d % CYCLE
  {
  }

  /** The gateway a named network is created with is no address: it has three parts. */
  lemma CustomGatewayNeverIssued(base: string, c: nat)
    ensures Address(base, c) != base + ".1"
  {
    assert |Address(base, c)| >= |base| + 4;
  }

  /** The default bridge's gateway would need a fourth octet of 1. */
  lemma DefaultGatewayNeverIssued(c: nat)
    ensures Address("172.18", c) != "172.18.0.1"
  {
    hide Itoa;
    OctetRange(c);
    var x, y := Itoa(ThirdOctet(c)), Itoa(FourthOctet(c));
    if Address("172.18", c) == "172.18.0.1" {
      assert Address("172.18", c)[7..] == x + "." + y;
      assert "172.18.0.1"[7..] == "0" + "." + "1";
      NoDotInNumber(ThirdOctet(c));
      DotSplit(x, y, "0", "1");
      ItoaOne();
      ItoaInjective(FourthOctet(c), 1);
    }
  }

  lemma ItoaOne()
    ensures Itoa(1) == "1"
  {
  }

  // ---- a run of the allocator: which counter values were read and which writes went through ----

  /** One allocation: the counter value it acted on, 0 if the file could not be read, and whether it
      could write the next one. With several processes at work the value may be out of date. */
  datatype Act = Act(seen: nat, stored: bool)

  /** The counter value an address is made from: the next one, or the one after if that would be
      the gateway. */
  function NextFrom(base: string, gateway: string, c: nat): nat {
    c + if Address(base, c + 1) == gateway then 2 else 1
  }

  /** What the counter file holds after a run. */
  function CounterAfter(base: string, gateway: string, acts: seq<Act>): nat {
    if acts == [] then 0
    else if acts[|acts| - 1].stored then NextFrom(base, gateway, acts[|acts| - 1].seen)
    else CounterAfter(base, gateway, acts[..|acts| - 1])
  }

  /** The gateway is not an address of the subnet, as for every network the registry creates. */
  ghost predicate GatewayOutside(base: string, gateway: string) {
    forall c: nat :: Address(base, c) != gateway
  }

  /** Allocations came one at a time, each reading the counter. */
  ghost predicate Serial(base: string, gateway: string, acts: seq<Act>) {
    forall k :: 0 <= k < |acts| ==> acts[k].seen == CounterAfter(base, gateway, acts[..k])
  }

  ghost predicate AllStored(acts: seq<Act>) { forall k :: 0 <= k < |acts| ==> acts[k].stored }

  lemma CounterSnoc(base: string, gateway: string, acts: seq<Act>, a: Act)
    ensures CounterAfter(base, gateway, acts + [a]) ==
            if a.stored then NextFrom(base, gateway, a.seen) else CounterAfter(base, gateway, acts)
  {
    assert (acts + [a])[..|acts|] == acts;
  }

  /** All along a run the counter tells the number of allocations, exactly when every one of them
      acted on the current value and stored the next. */
  lemma {:induction false} CounterCountsIff(base: string, gateway: string, acts: seq<Act>)
    requires GatewayOutside(base, gateway)
    ensures (forall k :: 0 <= k <= |acts| ==> CounterAfter(base, gateway, acts[..k]) == k) <==>
            Serial(base, gateway, acts) && AllStored(acts)
  {
    hide Address;
    if acts == [] {
      assert acts[..0] == [];
    } else {
      var front, last := acts[..|acts| - 1], acts[|acts| - 1];
      assert front + [last] == acts == acts[..|acts|];
      assert forall k :: 0 <= k <= |front| ==> front[..k] == acts[..k];
      assert front[..|front|] == front;
      CounterCountsIff(base, gateway, front);
      CounterSnoc(base, gateway, front, last);
      hide CounterAfter;
      assert Serial(base, gateway, acts) <==>
        Serial(base, gateway, front) && last.seen == CounterAfter(base, gateway, front) by {
        SerialSnoc(base, gateway, front, last);
      }
      assert AllStored(acts) <==> AllStored(front) && last.stored;
    }
  }

  lemma SerialSnoc(base: string, gateway: string, acts: seq<Act>, a: Act)
    ensures Serial(base, gateway, acts + [a]) <==>
            Serial(base, gateway, acts) && a.seen == CounterAfter(base, gateway, acts)
  {
    hide CounterAfter;
    var r := acts + [a];
    assert forall k :: 0 <= k <= |acts| ==> r[..k] == acts[..k];
    assert acts[..|acts|] == acts && r[|acts|] == a;
    if Serial(base, gateway, r) {
      forall k | 0 <= k < |acts| ensures acts[k].seen == CounterAfter(base, gateway, acts[..k]) {
        assert r[k] == acts[k];
      }
    }
  }

  /** How many of the writes went through. */
  function Stored(acts: seq<Act>): nat {
    if acts == [] then 0 else Stored(acts[..|acts| - 1]) + if acts[|acts| - 1].stored then 1 else 0
  }

  lemma StoredSnoc(acts: seq<Act>, a: Act)
    ensures Stored(acts + [a]) == Stored(acts) + if a.stored then 1 else 0
  {
    assert (acts + [a])[..|acts|] == acts;
  }

  /** One at a time, the counter tells the writes that went through. */
  lemma {:induction false} SerialCounter(base: string, gateway: string, acts: seq<Act>, k: nat)
    requires GatewayOutside(base, gateway) && Serial(base, gateway, acts) && k <= |acts|
    ensures CounterAfter(base, gateway, acts[..k]) == Stored(acts[..k])
  {
    if k > 0 {
      SerialCounter(base, gateway, acts, k - 1);
      assert acts[..k] == acts[..k - 1] + [acts[k - 1]];
      CounterSnoc(base, gateway, acts[..k - 1], acts[k - 1]);
      StoredSnoc(acts[..k - 1], acts[k - 1]);
    }
  }

  /** Every record holds the address made from its counter value. */
  ghost predicate Recorded(base: string, records: map<string, string>, issuedAt: map<string, nat>) {
    issuedAt.Keys == records.Keys && forall id :: id in records ==> records[id] == Address(base, issuedAt[id])
  }

  lemma RecordedAdd(base: string, records: map<string, string>, issuedAt: map<string, nat>, id: string, c: nat)
    requires Recorded(base, records, issuedAt)
    ensures Recorded(base, records[id := Address(base, c)], issuedAt[id := c])
    ensures forall h :: h in records ==>
        h in issuedAt && (records[h] == Address(base, c) <==> issuedAt[h] % CYCLE == c % CYCLE)
  {
    hide Address;
    forall h | h in records
      ensures h in issuedAt && (records[h] == Address(base, c) <==> issuedAt[h] % CYCLE == c % CYCLE)
    {
      CollisionIff(base, issuedAt[h], c);
    }
  }

  lemma ModSucc(x: nat)
    ensures (x + 1) % CYCLE == if x % CYCLE == CYCLE - 1 then 0 else x % CYCLE + 1
  {
  }

  /** Every address was made from the counter value its allocation acted on. */
  ghost predicate MadeFrom(base: string, gateway: string, issued: seq<string>, acts: seq<Act>) {
    && |acts| == |issued|
    && forall i :: 0 <= i < |issued| ==> issued[i] == Address(base, NextFrom(base, gateway, acts[i].seen))
  }

  /** The allocator state of one network: the counter file and the per-container records. Reading
      and writing the counter are separate steps, so that any number of processes can be at
      different points of an allocation. */
  class Ipam {
    const base: string
    const gateway: string
    var counter: nat
    var records: map<string, string>
    ghost var issuedAt: map<string, nat>  // counter value behind each live record
    ghost var issued: seq<string>         // every address handed out, oldest first
    ghost var acts: seq<Act>              // the allocation behind each of them

    ghost predicate Valid()
      reads this
    {
      && Recorded(base, records, issuedAt) && MadeFrom(base, gateway, issued, acts)
      && counter == CounterAfter(base, gateway, acts)
    }

    constructor (base: string, gateway: string)
      ensures Valid() && this.base == base && this.gateway == gateway
      ensures counter == 0 && records == map[] && issued == [] && acts == []
    {
      this.base, this.gateway := base, gateway;
      counter, records, issuedAt, issued, acts := 0, map[], map[], [], [];
    }

    /** Reading the counter file; a failure is taken for 0. */
    method ReadCounter(readable: bool) returns (seen: nat)
      ensures seen == if readable then counter else 0
    {
      seen := 0;
      if readable { seen := counter; }
    }

    /** The search of `AllocateOn` for an address that is not the gateway. It gives up after 65000
        values, which never happens, whatever the gateway: of two consecutive values at most one
        is the gateway. */
    method Search(seen: nat) returns (c: Option<nat>)
      ensures c == Some(NextFrom(base, gateway, seen)) && Address(base, c.value) != gateway
    {
      hide Address;
      var n := seen;
      NoRepeatWithinCycle(base, n + 1, n + 2);
      for i := 0 to 65000
        invariant i <= 1 && n == seen + i
        invariant i == 1 ==> Address(base, seen + 1) == gateway
      {
        n := n + 1;
        if Address(base, n) == gateway { continue; }
        return Some(n);
      }
      c := None;
    }

    /** The rest of `AllocateOn`, after `seen` was read, perhaps some time ago. `counterOk` and
        `recordOk` tell whether the two files could be written; neither failure is reported. The
        new address equals that of a container on record exactly when their counter values agree
        modulo 64516. */
    method Issue(id: string, seen: nat, counterOk: bool, recordOk: bool) returns (ip: string)
      requires Valid()
      modifies this
      ensures Valid() && ip != gateway
      ensures var c := NextFrom(base, gateway, seen);
        && ip == Address(base, c)
        && counter == (if counterOk then c else old(counter))
        && records == (if recordOk then old(records)[id := ip] else old(records))
        && issued == old(issued) + [ip] && acts == old(acts) + [Act(seen, counterOk)]
        && forall h :: h in old(records) ==>
            h in old(issuedAt) && (old(records)[h] == ip <==> old(issuedAt)[h] % CYCLE == c % CYCLE)
    {
      hide Address;
      hide NextFrom;
      hide CounterAfter;
      hide Recorded;
      var c := Search(seen);
      ip := Address(base, c.value);
      RecordedAdd(base, records, issuedAt, id, c.value);
      CounterSnoc(base, gateway, acts, Act(seen, counterOk));
      issued, acts := issued + [ip], acts + [Act(seen, counterOk)];
      if counterOk { counter := c.value; }
      if recordOk { records, issuedAt := records[id := ip], issuedAt[id := c.value]; }
    }

    /** `AllocateOn` with nobody in between. `dirOk` tells whether the directory could be made, the
        only failure that is reported. */
    method AllocateOn(id: string, dirOk: bool, readable: bool, counterOk: bool, recordOk: bool)
      returns (ip: Option<string>)
      requires Valid()
      modifies this
      ensures Valid() && (ip.Some? <==> dirOk)
      ensures !dirOk ==> unchanged(this)
      ensures dirOk ==>
        && ip.value == Address(base, NextFrom(base, gateway, if readable then old(counter) else 0))
        && ip.value != gateway
        && records == (if recordOk then old(records)[id := ip.value] else old(records))
        && issued == old(issued) + [ip.value]
        && acts == old(acts) + [Act(if readable then old(counter) else 0, counterOk)]
      ensures readable && old(Serial(base, gateway, acts)) ==> Serial(base, gateway, acts)
    {
      hide Address;
      hide NextFrom;
      hide CounterAfter;
      hide Recorded;
      hide MadeFrom;
      if !dirOk { return None; }
      var seen := ReadCounter(readable);
      SerialSnoc(base, gateway, acts, Act(seen, counterOk));
      hide Serial;
      var addr := Issue(id, seen, counterOk, recordOk);
      ip := Some(addr);
    }

    /** `ReleaseOn`: forgets the record; the counter does not go back. */
    method ReleaseOn(id: string)
      requires Valid()
      modifies this
      ensures Valid() && records == old(records) - {id} && unchanged(`counter, `issued, `acts)
    {
      hide Address;
      hide NextFrom;
      hide CounterAfter;
      records, issuedAt := records - {id}, issuedAt - {id};
    }

    /** After any interleaving of allocations and releases, with any reads and writes failing, two
        addresses agree exactly when the counter values they were made from agree modulo 64516;
        on a network of the registry, when the values read do. */
    lemma IssuedRepeatIff(i: nat, j: nat)
      requires Valid() && i < |issued| && j < |issued|
      ensures issued[i] == issued[j] <==>
              NextFrom(base, gateway, acts[i].seen) % CYCLE == NextFrom(base, gateway, acts[j].seen) % CYCLE
      ensures GatewayOutside(base, gateway) ==>
        (issued[i] == issued[j] <==> acts[i].seen % CYCLE == acts[j].seen % CYCLE)
    {
      hide Address;
      hide CounterAfter;
      CollisionIff(base, NextFrom(base, gateway, acts[i].seen), NextFrom(base, gateway, acts[j].seen));
      ModSucc(acts[i].seen);
      ModSucc(acts[j].seen);
    }

    /** One at a time, that is when the numbers of counter writes that went through before them
        agree. */
    lemma SerialRepeatIff(i: nat, j: nat)
      requires Valid() && GatewayOutside(base, gateway) && Serial(base, gateway, acts) && i < |issued| && j < |issued|
      ensures issued[i] == issued[j] <==> Stored(acts[..i]) % CYCLE == Stored(acts[..j]) % CYCLE
    {
      hide Address;
      hide CounterAfter;
      hide Stored;
      IssuedRepeatIff(i, j);
      SerialCounter(base, gateway, acts, i);
      SerialCounter(base, gateway, acts, j);
    }

    /** If the counter could be written each time too, an address comes round again exactly every
        64516 allocations, whatever was released. */
    lemma StoredRepeatIff(i: nat, j: nat)
      requires Valid() && GatewayOutside(base, gateway) && Serial(base, gateway, acts) && AllStored(acts)
      requires i < |issued| && j < |issued|
      ensures issued[i] == issued[j] <==> i % CYCLE == j % CYCLE
    {
      hide Address;
      hide CounterAfter;
      IssuedRepeatIff(i, j);
      CounterCountsIff(base, gateway, acts);
      assert CounterAfter(base, gateway, acts[..i]) == i && CounterAfter(base, gateway, acts[..j]) == j;
    }

    /** One at a time, the next container gets the same address at once exactly when the counter
        could not be written. */
    lemma RepeatsAtOnceIff(i: nat)
      requires Valid() && GatewayOutside(base, gateway) && Serial(base, gateway, acts) && i + 1 < |issued|
      ensures issued[i + 1] == issued[i] <==> !acts[i].stored
    {
      hide Address;
      hide CounterAfter;
      SerialRepeatIff(i, i + 1);
      assert acts[..i + 1] == acts[..i] + [acts[i]];
      StoredSnoc(acts[..i], acts[i]);
      ModSucc(Stored(acts[..i]));
    }

    /** Two processes that read the counter before either wrote it hand out one address twice. */
    method RacingAllocations(a: string, b: string) returns (x: string, y: string)
      requires Valid()
      modifies this
      ensures Valid() && x == y && (a != b ==> records == old(records)[a := x][b := x])
    {
      hide Address;
      hide Recorded;
      hide MadeFrom;
      hide CounterAfter;
      var first := ReadCounter(true);
      var second := ReadCounter(true);
      x := Issue(a, first, true, true);
      y := Issue(b, second, true, true);
    }
  }

  // ---- named networks ----

  const DEFAULT_SUBNET := "172.18.0.0/16"

  datatype Network = Network(subnet: string, gateway: string, containers: set<string>)

  datatype Error = InvalidName | BadDriver | Reserved | Exists | NoFreeSubnet | BridgeFailed | WriteFailed
                 | NotFound | Attached | RemoveFailed | NoContainer

  predicate NameChar(c: char) {
    'a' <= c <= 'z' || 'A' <= c <= 'Z' || '0' <= c <= '9' || c == '_' || c == '.' || c == '-'
  }

  predicate ValidName(name: string) {
    name != "" && |name| <= 64 && forall i :: 0 <= i < |name| ==> NameChar(name[i])
  }

  predicate IsReserved(name: string) { name == "bridge" || name == "host" || name == "none" }

  /** A name and driver that a network may be created with. */
  predicate Admissible(name: string, driver: string) {
    ValidName(name) && (driver == "" || driver == "bridge") && !IsReserved(name)
  }

  /** One to 64 letters, digits, underscores, dots and dashes. */
  lemma ValidNameIff(name: string)
    ensures ValidName(name) <==>
            1 <= |name| <= 64 && forall i :: 0 <= i < |name| ==>
              name[i] in DIGITS || name[i] in LOWER || name[i] in UPPER || name[i] in "_.-"
  {
    forall i | 0 <= i < |name|
      ensures NameChar(name[i]) <==>
              name[i] in DIGITS || name[i] in LOWER || name[i] in UPPER || name[i] in "_.-"
    {
      NameCharIff(name[i]);
    }
    hide NameChar;
  }

  lemma AdmissibleIff(name: string, driver: string)
    ensures Admissible(name, driver) <==>
            ValidName(name) && driver in {"", "bridge"} && name !in {"bridge", "host", "none"}
  {
    hide ValidName;
  }

  lemma NameCharIff(c: char)
    ensures NameChar(c) <==> c in DIGITS || c in LOWER || c in UPPER || c in "_.-"
  {
    DigitIff(c);
    LowerIff(c);
    UpperIff(c);
    assert c in "_.-" <==> c == '_' || c == '.' || c == '-' by { PunctuationIff(c); }
  }

  lemma PunctuationIff(c: char)
    ensures c in "_.-" <==> c == '_' || c == '.' || c == '-'
  {
    assert "_.-"[0] == '_' && "_.-"[1] == '.' && "_.-"[2] == '-';
  }

  /** Names that stand for the built-in network. */
  predicate IsDefault(name: string) { name == "" || name == "bridge" }

  lemma EmptyNameInvalid()
    ensures !ValidName("")
  {
  }

  /** The i-th automatic subnet. */
  function Candidate(i: nat): string { "172." + Itoa(i) + ".0.0/16" }

  lemma CandidateInjective(i: nat, j: nat)
    ensures Candidate(i) == Candidate(j) <==> i == j
  {
    hide Itoa;
    if Candidate(i) == Candidate(j) {
      assert Candidate(i)[4..] == Itoa(i) + "." + "0.0/16" && Candidate(j)[4..] == Itoa(j) + "." + "0.0/16";
      NoDotInNumber(i);
      NoDotInNumber(j);
      DotSplit(Itoa(i), "0.0/16", Itoa(j), "0.0/16");
      ItoaInjective(i, j);
    }
  }

  lemma CandidateNotDefault(i: nat)
    requires i != 18
    ensures Candidate(i) != DEFAULT_SUBNET
  {
    assert Candidate(18) == DEFAULT_SUBNET by { assert Itoa(18) == "18"; }
    CandidateInjective(i, 18);
  }

  function Range(lo: int, hi: int): set<int>
    decreases hi - lo
  {
    if lo >= hi then {} else Range(lo, hi - 1) + {hi - 1}
  }

  lemma {:induction false} RangeExact(lo: int, hi: int)
    requires lo <= hi
    ensures |Range(lo, hi)| == hi - lo && forall i :: i in Range(lo, hi) <==> lo <= i < hi
    decreases hi - lo
  {
    if lo < hi { RangeExact(lo, hi - 1); }
  }

  ghost predicate Injective(m: map<string, int>) {
    forall a, b :: a in m && b in m && m[a] == m[b] ==> a == b
  }

  lemma InjectiveAdd(m: map<string, int>, k: string, v: int)
    requires Injective(m) && forall n :: n in m ==> m[n] != v
    ensures Injective(m[k := v])
  {
  }

  /** An injective map takes as many values as it has keys. */
  lemma {:induction false} InjectiveSize(m: map<string, int>)
    requires Injective(m)
    ensures |m.Values| == |m|
  {
    if m != map[] {
      var k :| k in m;
      var m' := m - {k};
      InjectiveSize(m');
      assert m.Values == m'.Values + {m[k]};
      assert m[k] !in m'.Values;
      assert |m'.Keys| == |m.Keys| - 1 by { assert m'.Keys == m.Keys - {k}; }
      assert |m'| == |m'.Keys| && |m| == |m.Keys|;
    }
  }

  /** Distinct slots from a range of twelve: all are taken exactly when there are twelve. */
  lemma TwelveFull(m: map<string, int>)
    requires Injective(m) && forall n :: n in m ==> 19 <= m[n] <= 30
    ensures |m| <= 12 && (|m| == 12 <==> forall i: nat :: 19 <= i <= 30 ==> i in m.Values)
  {
    hide Injective;
    hide Range;
    var all := Range(19, 31);
    InjectiveSize(m);
    RangeExact(19, 31);
    assert m.Values <= all;
    SubsetCard(m.Values, all);
    if |m| == 12 { assert m.Values == all; }
    if forall i: nat :: 19 <= i <= 30 ==> i in m.Values {
      forall x | x in all ensures x in m.Values { var i: nat := x; assert 19 <= i <= 30; }
      SubsetCard(all, m.Values);
    }
  }

  /** The subnets of some of the networks. */
  function Subnets(nets: map<string, Network>, names: set<string>): set<string> {
    set n | n in names && n in nets :: nets[n].subnet
  }

  /** The store of named networks. */
  class Registry {
    var nets: map<string, Network>
    ghost var slotOf: map<string, int> // the candidate of each network that was given a free one

    /** Networks that were given a free candidate hold distinct ones. */
    ghost predicate Valid()
      reads this
    {
      && "" !in nets && slotOf.Keys <= nets.Keys && Injective(slotOf)
      && (forall n :: n in slotOf ==> 19 <= slotOf[n] <= 30 && nets[n].subnet == Candidate(slotOf[n]))
    }

    /** Every live network was given a free candidate. */
    ghost predicate Automatic()
      reads this
    {
      slotOf.Keys == nets.Keys
    }

    constructor ()
      ensures Valid() && nets == map[] && slotOf == map[]
    {
      nets, slotOf := map[], map[];
    }

    /** Live networks that were given a free candidate have distinct /16s, none of them that of the
        default bridge, whatever other networks there are. */
    lemma SubnetsDistinct(a: string, b: string)
      requires Valid() && a in slotOf && b in slotOf
      ensures nets[a].subnet == nets[b].subnet <==> a == b
      ensures nets[a].subnet != DEFAULT_SUBNET
    {
      CandidateInjective(slotOf[a], slotOf[b]);
      CandidateNotDefault(slotOf[a]);
    }

    /** Candidate `i` is in use by one of `listing` or by the default bridge. */
    ghost predicate TakenBy(listing: set<string>, i: nat)
      reads this
    {
      Candidate(i) == DEFAULT_SUBNET || exists n :: n in nets && n in listing && nets[n].subnet == Candidate(i)
    }

    ghost predicate Taken(i: nat)
      reads this
    {
      TakenBy(nets.Keys, i)
    }

    /** `allocateSubnet`: the first candidate that is free among the networks whose records could be
        read; `listing` holds those, none if the directory cannot be read, for the source drops
        that error. With all of them, and automatic networks only, it runs out exactly when twelve
        are live. */
    method AllocateSubnet(listing: set<string>) returns (subnet: Option<string>, ghost slot: nat)
      requires Valid() && listing <= nets.Keys
      ensures subnet.None? <==> forall i: nat :: 19 <= i <= 30 ==> TakenBy(listing, i)
      ensures subnet.Some? ==> 19 <= slot <= 30 && subnet.value == Candidate(slot) && !TakenBy(listing, slot)
      ensures subnet.Some? ==> forall i: nat :: 19 <= i < slot ==> TakenBy(listing, i)
      ensures listing == nets.Keys && Automatic() ==> |nets| <= 12 && (subnet.None? <==> |nets| == 12)
    {
      hide Candidate;
      if Automatic() { FullIff(); }
      var used := {DEFAULT_SUBNET};
      var todo := listing;
      while todo != {}
        invariant todo <= listing
        invariant forall s :: s in used <==>
            s == DEFAULT_SUBNET || exists n :: n in nets && n in listing && n !in todo && nets[n].subnet == s
      {
        var n :| n in todo;
        todo := todo - {n};
        used := used + {nets[n].subnet};
      }
      slot := 0;
      for i := 19 to 31
        invariant forall k: nat :: 19 <= k < i ==> TakenBy(listing, k)
      {
        if Candidate(i) !in used {
          assert !TakenBy(listing, i);
          assert listing == nets.Keys ==> !Taken(i);
          return Some(Candidate(i)), i;
        }
      }
      subnet := None;
    }

    lemma TakenIff(i: nat)
      requires Valid() && Automatic() && 19 <= i <= 30
      ensures Taken(i) <==> i in slotOf.Values
    {
      hide Candidate;
      CandidateNotDefault(i);
      if i in slotOf.Values {
        var n :| n in slotOf && slotOf[n] == i;
        assert nets[n].subnet == Candidate(i);
      }
      if Taken(i) {
        var n :| n in nets && nets[n].subnet == Candidate(i);
        CandidateInjective(slotOf[n], i);
        assert slotOf[n] in slotOf.Values;
      }
    }

    lemma FullIff()
      requires Valid() && Automatic()
      ensures |nets| <= 12
      ensures |nets| == 12 <==> forall i: nat :: 19 <= i <= 30 ==> Taken(i)
    {
      hide Taken;
      hide Candidate;
      TwelveFull(slotOf);
      assert |slotOf.Keys| == |slotOf| && |nets.Keys| == |nets|;
      forall i: nat | 19 <= i <= 30 ensures Taken(i) <==> i in slotOf.Values { TakenIff(i); }
    }

    /** Records a network; one created without a subnet takes a free slot. */
    method Store(name: string, nw: Network, ghost slot: Option<nat>)
      requires Valid() && name != "" && name !in nets
      requires slot.Some? ==> 19 <= slot.value <= 30 && nw.subnet == Candidate(slot.value) && !Taken(slot.value)
      modifies this
      ensures Valid() && nets == old(nets)[name := nw]
      ensures slotOf.Keys == old(slotOf).Keys + (if slot.Some? then {name} else {})
    {
      hide Candidate;
      hide Taken;
      hide Injective;
      ghost var slots := slotOf;
      if slot.Some? {
        forall n | n in slotOf ensures slotOf[n] != slot.value { FreeSlot(slot.value, n); }
        InjectiveAdd(slotOf, name, slot.value);
        slots := slotOf[name := slot.value];
      }
      nets, slotOf := nets[name := nw], slots;
    }

    /** `CreateNetwork`. `base` is the subnet's first two octets; `bridgeOk` and `writeOk` tell whether
        the bridge and the record file could be made, and `listing` holds the networks whose records can be read. A
        network created without a subnet gets a free one exactly when no network outside the
        listing holds it; without any listing it gets the first candidate, in use or not. */
    method Create(name: string, driver: string, subnet: string, base: string -> string, listing: set<string>,
                  bridgeOk: bool, writeOk: bool)
      returns (err: Option<Error>)
      requires Valid() && listing <= nets.Keys
      modifies this
      ensures Valid() && (err.Some? ==> unchanged(this))
      ensures err.Some? && err.value in {InvalidName, BadDriver, Reserved, Exists} <==>
          !Admissible(name, driver) || name in old(nets)
      ensures Admissible(name, driver) && name !in old(nets) && err != Some(NoFreeSubnet) ==>
        err == if !bridgeOk then Some(BridgeFailed) else if !writeOk then Some(WriteFailed) else None
      ensures err.None? ==>
        && name in nets && nets == old(nets)[name := nets[name]]
        && nets[name].gateway == base(nets[name].subnet) + ".1" && nets[name].containers == {}
        && (subnet != "" ==> nets[name].subnet == subnet)
        && old(slotOf).Keys <= slotOf.Keys <= old(slotOf).Keys + {name}
        && (name in slotOf <==> subnet == "" && nets[name].subnet !in Subnets(old(nets), old(nets).Keys - listing))
        && (subnet == "" && listing == {} ==> nets[name].subnet == Candidate(19))
      ensures listing == old(nets).Keys && old(Automatic()) && Admissible(name, driver) && name !in old(nets) ==>
        (err == Some(NoFreeSubnet) <==> subnet == "" && |old(nets)| == 12)
    {
      hide Candidate;
      hide ValidName;
      hide IsReserved;
      hide Taken;
      hide TakenBy;
      hide Subnets;
      hide Injective;
      assert !ValidName("") by { EmptyNameInvalid(); }
      if !ValidName(name) { return Some(InvalidName); }
      if driver != "" && driver != "bridge" { return Some(BadDriver); }
      if IsReserved(name) { return Some(Reserved); }
      if name in nets { return Some(Exists); }
      var chosen := subnet;
      ghost var slot := None;
      if subnet == "" {
        var free;
        ghost var first;
        free, first := AllocateSubnet(listing);
        if free.None? { return Some(NoFreeSubnet); }
        chosen := free.value;
        FreeIff(listing, first);
        slot := if Taken(first) then None else Some(first);
      }
      if !bridgeOk { return Some(BridgeFailed); }
      if !writeOk { return Some(WriteFailed); }
      Store(name, Network(chosen, base(chosen) + ".1", {}), slot);
      err := None;
    }

    /** A candidate that is free among the listed networks is free unless an unlisted one holds it. */
    lemma FreeIff(listing: set<string>, slot: nat)
      requires listing <= nets.Keys && 19 <= slot && !TakenBy(listing, slot)
      ensures Taken(slot) <==> Candidate(slot) in Subnets(nets, nets.Keys - listing)
      ensures listing == {} && (forall i: nat :: 19 <= i < slot ==> TakenBy(listing, i)) ==> slot == 19
    {
      hide Candidate;
      CandidateNotDefault(19);
      if Taken(slot) {
        var n :| n in nets && nets[n].subnet == Candidate(slot);
        assert n in nets.Keys - listing;
      }
      if listing == {} { assert !TakenBy(listing, 19); }
    }

    lemma FreeSlot(slot: nat, n: string)
      requires Valid() && !Taken(slot) && n in slotOf
      ensures slotOf[n] != slot
    {
      hide Candidate;
      assert nets[n].subnet == Candidate(slotOf[n]);
    }

    /** `RemoveNetwork`: refuses reserved names, and attached containers unless forced. `removeOk` tells
        whether the record file could be removed. */
    method Remove(name: string, force: bool, removeOk: bool) returns (err: Option<Error>)
      requires Valid()
      modifies this
      ensures Valid() && (err.Some? ==> unchanged(this))
      ensures err.None? ==>
        && name !in {"bridge", "host", "none"} && name in old(nets) && (force || old(nets)[name].containers == {})
        && nets == old(nets) - {name} && slotOf == old(slotOf) - {name}
      ensures err.Some? && err.value != RemoveFailed <==>
        || name in {"bridge", "host", "none"}
        || (name != "" && (name !in old(nets) || (old(nets)[name].containers != {} && !force)))
      ensures err == Some(RemoveFailed) ==> name == "" || !removeOk
      ensures !removeOk ==> err.Some?
    {
      hide Candidate;
      if IsReserved(name) { return Some(Reserved); }
      if name == "" { return Some(RemoveFailed); }  // the built-in network has no record file
      if name !in nets { return Some(NotFound); }
      if nets[name].containers != {} && !force { return Some(Attached); }
      if !removeOk { return Some(RemoveFailed); }
      nets, slotOf := nets - {name}, slotOf - {name};
      err := None;
    }

    /** `ConnectNetwork`; the default bridge keeps no record of its containers. `writeOk` tells whether
        the record file could be written. */
    method Connect(id: string, name: string, writeOk: bool) returns (err: Option<Error>)
      requires Valid()
      modifies this`nets
      ensures Valid() && (err.Some? || name in {"", "bridge"} ==> unchanged(this))
      ensures err.None? && name !in {"", "bridge"} ==>
        && name in old(nets)
        && nets == old(nets)[name := old(nets)[name].(containers := old(nets)[name].containers + {id})]
      ensures err.Some? && err.value != WriteFailed <==> id == "" || (name !in {"", "bridge"} && name !in old(nets))
      ensures err == Some(WriteFailed) <==> id != "" && name !in {"", "bridge"} && name in old(nets) && !writeOk
    {
      hide Candidate;
      if id == "" { return Some(NoContainer); }
      if IsDefault(name) { return None; }
      if name !in nets { return Some(NotFound); }
      if !writeOk { return Some(WriteFailed); }
      nets := nets[name := nets[name].(containers := nets[name].containers + {id})];
      err := None;
    }

    /** `DisconnectNetwork`: undoes a connection. */
    method Disconnect(id: string, name: string, writeOk: bool) returns (err: Option<Error>)
      requires Valid()
      modifies this`nets
      ensures Valid() && (err.Some? || name in {"", "bridge"} ==> unchanged(this))
      ensures err.None? && name !in {"", "bridge"} ==>
        && name in old(nets)
        && nets == old(nets)[name := old(nets)[name].(containers := old(nets)[name].containers - {id})]
      ensures err.Some? && err.value != WriteFailed <==> name !in {"", "bridge"} && name !in old(nets)
      ensures err == Some(WriteFailed) <==> name !in {"", "bridge"} && name in old(nets) && !writeOk
    {
      hide Candidate;
      if IsDefault(name) { return None; }
      if name !in nets { return Some(NotFound); }
      if !writeOk { return Some(WriteFailed); }
      nets := nets[name := nets[name].(containers := nets[name].containers - {id})];
      err := None;
    }

    /** A connected network cannot be removed until its last container is disconnected, unless forced;
        then it can. Here every file can be written. */
    method ConnectThenRemove(id: string, name: string) returns (connected: bool, removed: bool, removedAfter: bool)
      requires Valid() && name !in {"", "bridge"}
      modifies this
      ensures Valid() && (connected <==> id != "" && name in old(nets)) && !removed
      ensures removedAfter <==>
        connected && name !in {"host", "none"} && old(nets)[name].containers <= {id}
      ensures removedAfter ==> nets == old(nets) - {name}
      ensures connected && !removedAfter ==>
        nets == old(nets)[name := old(nets)[name].(containers := old(nets)[name].containers - {id})]
    {
      removed, removedAfter := false, false;
      var err := Connect(id, name, true);
      connected := err.None?;
      if !connected { return; }
      ghost var during := nets;
      assert id in nets[name].containers;
      err := Remove(name, false, true);
      removed := err.None?;
      err := Disconnect(id, name, true);
      ghost var rest := nets[name].containers;
      assert rest == old(nets)[name].containers - {id};
      assert rest == {} <==> old(nets)[name].containers <= {id};
      err := Remove(name, false, true);
      removedAfter := err.None?;
      assert during - {name} == old(nets) - {name};
    }
  }
}
