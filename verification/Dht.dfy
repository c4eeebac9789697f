/** internal/p2p/dht.go: the 256-bucket XOR table. */
module Dht {
  import opened Text
  import opened Wire

  type NodeID = s: seq<Byte> | |s| == 32 witness seq(32, _ => 0)

  // ---- bits ----

  function Pow2(n: nat): (p: nat)
    ensures p >= 1
  {
    if n == 0 then 1 else 2 * Pow2(n - 1)
  }

  /** Bitwise exclusive or. */
  function XorNat(a: nat, b: nat): nat
    decreases a + b
  {
    if a == 0 && b == 0 then 0 else 2 * XorNat(a / 2, b / 2) + (if a % 2 == b % 2 then 0 else 1)
  }

  /** Position of the highest set bit; 0 for 0 and 1. */
  function HighBit(x: nat): nat {
    if x < 2 then 0 else 1 + HighBit(x / 2)
  }

  lemma {:induction false} XorBound(a: nat, b: nat, n: nat)
    requires a < Pow2(n) && b < Pow2(n)
    ensures XorNat(a, b) < Pow2(n)
    decreases n
  {
    if n > 0 && (a != 0 || b != 0) { XorBound(a / 2, b / 2, n - 1); }
  }

  lemma {:induction false} XorSymmetric(a: nat, b: nat)
    ensures XorNat(a, b) == XorNat(b, a)
    decreases a + b
  {
    if a != 0 || b != 0 { XorSymmetric(a / 2, b / 2); }
  }

  lemma {:induction false} XorZero(a: nat, b: nat)
    ensures XorNat(a, b) == 0 <==> a == b
    decreases a + b
  {
    if a != 0 || b != 0 { XorZero(a / 2, b / 2); }
  }

  lemma {:induction false} XorTriangle(a: nat, b: nat, c: nat)
    ensures XorNat(a, c) <= XorNat(a, b) + XorNat(b, c)
    decreases a + b + c
  {
    if a != 0 || b != 0 || c != 0 { XorTriangle(a / 2, b / 2, c / 2); }
  }

  /** Exclusive or, bit by bit. */
  lemma {:induction false} XorBits(a: nat, b: nat, k: nat)
    ensures XorNat(a, b) / Pow2(k) % 2 == if a / Pow2(k) % 2 == b / Pow2(k) % 2 then 0 else 1
    decreases k
  {
    XorHalf(a, b);
    hide XorNat;
    if k > 0 {
      XorBits(a / 2, b / 2, k - 1);
      ShiftMore(a, k);
      ShiftMore(b, k);
      ShiftMore(XorNat(a, b), k);
    }
  }

  lemma ShiftMore(x: nat, k: nat)
    requires k > 0
    ensures x / Pow2(k) == x / 2 / Pow2(k - 1)
  {
    var p := Pow2(k - 1);
    assert Pow2(k) == 2 * p;
    hide Pow2;
    var q, r := x / 2 / p, x / 2 % p;
    assert x == 2 * (p * q + r) + x % 2;
    assert x == (2 * p) * q + (2 * r + x % 2);
    DivUnique(x, 2 * p, q, 2 * r + x % 2);
  }

  lemma DivUnique(x: nat, d: nat, q: nat, r: nat)
    requires d > 0 && x == d * q + r && r < d
    ensures x / d == q
  {
    var e := x / d;
    assert x == d * e + x % d;
    assert e < q ==> d * (e + 1) <= d * q;
    assert e > q ==> d * (q + 1) <= d * e;
  }

  lemma XorHalf(a: nat, b: nat)
    ensures XorNat(a, b) / 2 == XorNat(a / 2, b / 2) && XorNat(a, b) % 2 == if a % 2 == b % 2 then 0 else 1
  {
    var low := if a % 2 == b % 2 then 0 else 1;
    assert XorNat(a, b) == 2 * XorNat(a / 2, b / 2) + low;
    hide XorNat;
    Halves(XorNat(a / 2, b / 2), low);
  }

  lemma Halves(x: nat, low: nat)
    requires low < 2
    ensures (2 * x + low) / 2 == x && (2 * x + low) % 2 == low
  {
  }

  function XorByte(a: Byte, b: Byte): Byte {
    XorBound(a, b, 8);
    XorNat(a, b)
  }

  lemma Shift2(x: nat)
    requires x >= 4
    ensures HighBit(x) == 2 + HighBit(x / 4)
  {
    assert x / 2 / 2 == x / 4;
  }

  lemma Shift4(x: nat)
    requires x >= 0x10
    ensures HighBit(x) == 4 + HighBit(x / 0x10)
  {
    Shift2(x);
    Shift2(x / 4);
    assert x / 4 / 4 == x / 0x10;
  }

  lemma Shift8(x: nat)
    requires x >= 0x100
    ensures HighBit(x) == 8 + HighBit(x / 0x100)
  {
    Shift4(x);
    Shift4(x / 0x10);
    assert x / 0x10 / 0x10 == x / 0x100;
  }

  lemma Shift16(x: nat)
    requires x >= 0x1_0000
    ensures HighBit(x) == 16 + HighBit(x / 0x1_0000)
  {
    Shift8(x);
    Shift8(x / 0x100);
    assert x / 0x100 / 0x100 == x / 0x1_0000;
  }

  /** `log2`, by halving the width. Right for every argument below 2^32, and for no other. */
  method Log2(arg: nat) returns (n: nat)
    requires arg < 0x1_0000_0000_0000_0000
    ensures n == HighBit(arg) <==> arg < 0x1_0000_0000
  {
    hide HighBit;
    var x := arg;
    if x == 0 { SmallBits(); return 0; }
    n := 0;
    if arg >= 0x1_0000_0000 {
      Shift16(arg);
      Shift16(arg / 0x1_0000);
    }
    if x >= 0x1_0000 { Shift16(x); x := x / 0x1_0000; n := n + 16; }
    if x >= 0x100 { Shift8(x); x := x / 0x100; n := n + 8; }
    if x >= 0x10 { Shift4(x); x := x / 0x10; n := n + 4; }
    if x >= 4 { Shift2(x); x := x / 4; n := n + 2; }
    SmallBits();
    if x >= 2 { n := n + 1; }
  }

  lemma SmallBits()
    ensures HighBit(0) == HighBit(1) == 0 && HighBit(2) == HighBit(3) == 1
  {
  }

  lemma ByteBits(b: Byte)
    ensures HighBit(b) < 8
  {
    hide HighBit;
    SmallBits();
    if b >= 0x10 { Shift4(b); }
    var x := if b >= 0x10 then b / 0x10 else b;
    if x >= 4 { Shift2(x); }
  }

  // ---- identifiers ----

  /** `Xor`. */
  function Xor(a: NodeID, b: NodeID): NodeID {
    seq(32, i requires 0 <= i < 32 => XorByte(a[i], b[i]))
  }

  method XorLoop(a: NodeID, b: NodeID) returns (r: NodeID)
    ensures r == Xor(a, b)
  {
    var out: seq<Byte> := [];
    for i := 0 to 32
      invariant |out| == i && forall k :: 0 <= k < i ==> out[k] == XorByte(a[k], b[k])
    {
      out := out + [XorByte(a[i], b[i])];
    }
    r := out;
  }

  /** The first non-zero byte from `i` on, 32 if there is none. */
  function FirstNonZero(d: NodeID, i: nat): (r: nat)
    requires i <= 32
    ensures i <= r <= 32 && (forall k :: i <= k < r ==> d[k] == 0) && (r < 32 ==> d[r] != 0)
    decreases 32 - i
  {
    if i == 32 || d[i] != 0 then i else FirstNonZero(d, i + 1)
  }

  /** The highest set bit of a 256-bit number: the byte it lies in, counted from the most
      significant, and its position in that byte. `None` for zero. */
  function TopBit(d: NodeID): Option<(nat, nat)> {
    var i := FirstNonZero(d, 0);
    if i == 32 then None else Some((i, HighBit(d[i])))
  }

  lemma TopBitBound(d: NodeID)
    ensures TopBit(d).Some? ==> TopBit(d).value.0 < 32 && TopBit(d).value.1 < 8
  {
    hide HighBit;
    var i := FirstNonZero(d, 0);
    if i < 32 {
      var b: Byte := d[i];
      ByteBits(b);
    }
  }

  /** Where distances with a given highest bit are filed. Within a byte the order is reversed. */
  function Slot(top: Option<(nat, nat)>): int {
    match top
    case None => 0
    case Some((i, h)) => 255 - 8 * i - h
  }

  /** `bucketIndex`. */
  function Bucket(self: NodeID, id: NodeID): (r: int)
    ensures 0 <= r < 256
  {
    TopBitBound(Xor(id, self));
    Slot(TopBit(Xor(id, self)))
  }

  method BucketIndex(self: NodeID, id: NodeID) returns (r: int)
    ensures r == Bucket(self, id)
  {
    hide HighBit;
    hide Xor;
    var distance := XorLoop(id, self);
    for i := 0 to 32
      invariant forall k :: 0 <= k < i ==> distance[k] == 0
    {
      if distance[i] != 0 {
        var l := Log2(distance[i]);
        assert FirstNonZero(distance, 0) == i;
        r := 255 - i * 8;
        r := r - l;
        return;
      }
    }
    assert FirstNonZero(distance, 0) == 32;
    r := 0;
  }

  /** Two identifiers share a bucket exactly when their distances to us have the same highest
      set bit, except that distance zero is filed with the distances from 128 to 255. */
  lemma SameBucketIff(self: NodeID, a: NodeID, b: NodeID)
    ensures Bucket(self, a) == Bucket(self, b) <==>
            var s, t := TopBit(Xor(a, self)), TopBit(Xor(b, self));
            s == t || ((s.None? || s == Some((31, 7))) && (t.None? || t == Some((31, 7))))
  {
    hide TopBit;
    hide Xor;
    TopBitBound(Xor(a, self));
    TopBitBound(Xor(b, self));
  }

  lemma {:induction false} HighBitBetween(x: nat, h: nat)
    requires Pow2(h) <= x < Pow2(h + 1)
    ensures HighBit(x) == h
  {
    if h > 0 { HighBitBetween(x / 2, h - 1); }
  }

  /** The bucket in figures: an identifier that first differs from ours in byte `i`, by a difference
      whose highest bit is `h`, goes to bucket 255 - 8i - h; we ourselves would go to bucket 0. */
  lemma BucketValue(self: NodeID, id: NodeID, i: nat, h: nat)
    requires i < 32 && id[..i] == self[..i]
    requires Pow2(h) <= XorByte(id[i], self[i]) < Pow2(h + 1)
    ensures Bucket(self, id) == 255 - 8 * i - h
    ensures Bucket(self, self) == 0
  {
    hide HighBit;
    var d, z := Xor(id, self), Xor(self, self);
    forall k | 0 <= k < i ensures d[k] == 0 {
      assert id[k] == id[..i][k] && self[k] == self[..i][k];
      XorZero(id[k], self[k]);
    }
    assert d[i] == XorByte(id[i], self[i]) && d[i] != 0;
    assert FirstNonZero(d, 0) == i;
    HighBitBetween(XorByte(id[i], self[i]), h);
    forall k | 0 <= k < 32 ensures z[k] == 0 { XorZero(self[k], self[k]); }
    assert FirstNonZero(z, 0) == 32;
  }

  // ---- distance ----

  /** Big-endian value of a byte string. */
  function BeNum(s: seq<Byte>): nat {
    if s == [] then 0 else 256 * BeNum(s[..|s| - 1]) + s[|s| - 1]
  }

  lemma {:induction false} BeNumLess(s: seq<Byte>, t: seq<Byte>, i: nat)
    requires |s| == |t| <= 8 && i < |s| && s[..i] == t[..i] && s[i] < t[i]
    ensures BeNum(s) < BeNum(t)
  {
    var n := |s| - 1;
    if i < n {
      assert s[..n][..i] == s[..i] && t[..n][..i] == t[..i];
      BeNumLess(s[..n], t[..n], i);
    } else {
      assert s[..n] == t[..n];
    }
  }

  /** `XorDistance`: the leading eight bytes of the exclusive or, as a uint64. */
  function Distance(a: NodeID, b: NodeID): nat { BeNum(Xor(a, b)[..8]) }

  lemma {:induction false} BeNumBound(s: seq<Byte>)
    requires |s| <= 8
    ensures BeNum(s) < Pow2(8 * |s|)
  {
    if s != [] {
      BeNumBound(s[..|s| - 1]);
      Pow2Step8(8 * (|s| - 1));
    }
  }

  lemma Pow2Step8(n: nat)
    ensures Pow2(n + 8) == 256 * Pow2(n)
  {
    assert Pow2(n + 8) == 2 * Pow2(n + 7) && Pow2(n + 7) == 2 * Pow2(n + 6) && Pow2(n + 6) == 2 * Pow2(n + 5);
    assert Pow2(n + 5) == 2 * Pow2(n + 4) && Pow2(n + 4) == 2 * Pow2(n + 3) && Pow2(n + 3) == 2 * Pow2(n + 2);
    assert Pow2(n + 2) == 2 * Pow2(n + 1) && Pow2(n + 1) == 2 * Pow2(n);
  }

  method XorDistance(a: NodeID, b: NodeID) returns (val: nat)
    ensures val == Distance(a, b)
  {
    hide Xor;
    hide Pow2;
    var r := XorLoop(a, b);
    val := 0;
    for i := 0 to 8
      invariant val == BeNum(r[..i])
    {
      assert r[..i + 1][..i] == r[..i];
      BeNumBound(r[..i]);
      Pow2Mono(8 * i, 56);
      Pow64();
      val := val * 256 % 0x1_0000_0000_0000_0000 + r[i];
    }
  }

  lemma {:induction false} Pow2Mono(m: nat, n: nat)
    requires m <= n
    ensures Pow2(m) <= Pow2(n)
  {
    if m < n { Pow2Mono(m, n - 1); }
  }

  lemma Pow64()
    ensures Pow2(56) * 256 == 0x1_0000_0000_0000_0000
  {
    Pow2Step8(0);
    Pow2Step8(8);
    Pow2Step8(16);
    Pow2Step8(24);
    Pow2Step8(32);
    Pow2Step8(40);
    Pow2Step8(48);
  }

  lemma {:induction false} BeNumTriangle(x: seq<Byte>, y: seq<Byte>, z: seq<Byte>)
    requires |x| == |y| == |z|
    requires forall i :: 0 <= i < |x| ==> (x[i] as int) <= (y[i] as int) + z[i]
    ensures BeNum(x) <= BeNum(y) + BeNum(z)
  {
    if x != [] { BeNumTriangle(x[..|x| - 1], y[..|x| - 1], z[..|x| - 1]); }
  }

  lemma {:induction false} BeNumZero(s: seq<Byte>)
    ensures BeNum(s) == 0 <==> forall i :: 0 <= i < |s| ==> s[i] == 0
  {
    if s != [] { BeNumZero(s[..|s| - 1]); }
  }

  /** Symmetric, triangular, and zero exactly on identifiers with equal leading eight bytes. */
  /** The first byte in which two exclusive ors differ decides which is nearer. */
  lemma FirstByteDecides(a: NodeID, b: NodeID, t: NodeID, i: nat)
    requires i < 8 && Xor(a, t)[..i] == Xor(b, t)[..i] && Xor(a, t)[i] < Xor(b, t)[i]
    ensures Distance(a, t) < Distance(b, t)
  {
    hide Xor;
    var x, y := Xor(a, t), Xor(b, t);
    assert x[..8][..i] == x[..i] && y[..8][..i] == y[..i];
    BeNumLess(x[..8], y[..8], i);
  }

  lemma DistanceIsPseudometric(a: NodeID, b: NodeID, c: NodeID)
    ensures Distance(a, b) == Distance(b, a)
    ensures Distance(a, c) <= Distance(a, b) + Distance(b, c)
    ensures Distance(a, b) == 0 <==> a[..8] == b[..8]
  {
    hide XorNat;
    forall i | 0 <= i < 32 ensures XorNat(a[i], b[i]) == XorNat(b[i], a[i]) { XorSymmetric(a[i], b[i]); }
    assert Xor(a, b) == Xor(b, a);
    var x, y, z := Xor(a, c)[..8], Xor(a, b)[..8], Xor(b, c)[..8];
    forall i | 0 <= i < 8 ensures (x[i] as int) <= (y[i] as int) + z[i] { XorTriangle(a[i], b[i], c[i]); }
    BeNumTriangle(x, y, z);
    BeNumZero(y);
    forall i | 0 <= i < 8 ensures y[i] == 0 <==> a[i] == b[i] { XorZero(a[i], b[i]); }
    assert a[..8] == b[..8] <==> forall i :: 0 <= i < 8 ==> a[i] == b[i];
  }

  // ---- the table ----

  datatype NodeInfo<T> = NodeInfo(id: T, addr: string)

  const K := 8  // how many nodes a lookup aims for

  /** Distance in the table between an identifier's bucket and bucket `home`. */
  function Radius(self: NodeID, home: int, id: NodeID): nat {
    var b := Bucket(self, id);
    if b <= home then home - b else b - home
  }

  /** `candidates` lists each identifier of `seen` once, with its address. */
  ghost predicate Lists<T>(peers: map<T, string>, candidates: seq<NodeInfo<T>>, seen: set<T>) {
    && seen <= peers.Keys && |candidates| == |seen|
    && (forall i, j :: 0 <= i < j < |candidates| ==> candidates[i].id != candidates[j].id)
    && (forall i :: 0 <= i < |candidates| ==> candidates[i].id in seen && candidates[i].addr == peers[candidates[i].id])
    && (forall id :: id in seen ==> NodeInfo(id, peers[id]) in candidates)
  }

  lemma ListOne<T>(peers: map<T, string>, candidates: seq<NodeInfo<T>>, seen: set<T>, id: T)
    requires Lists(peers, candidates, seen) && id in peers && id !in seen
    ensures Lists(peers, candidates + [NodeInfo(id, peers[id])], seen + {id})
  {
  }

  /** Adds the unseen entries of one bucket, in map order, stopping at `limit` entries. */
  method Collect<T(==)>(nodes: map<T, string>, ghost peers: map<T, string>, candidates: seq<NodeInfo<T>>, seen: set<T>,
                        limit: Option<nat>)
    returns (candidates': seq<NodeInfo<T>>, seen': set<T>, full: bool)
    requires (forall id :: id in nodes ==> id in peers && nodes[id] == peers[id]) && Lists(peers, candidates, seen)
    requires limit.Some? ==> |candidates| < limit.value
    ensures Lists(peers, candidates', seen') && seen <= seen' <= seen + nodes.Keys
    ensures full ==> limit == Some(|candidates'|)
    ensures !full ==> nodes.Keys <= seen' && (limit.Some? ==> |candidates'| < limit.value)
  {
    hide Lists;
    candidates', seen', full := candidates, seen, false;
    var todo := nodes.Keys;
    while todo != {}
      invariant todo <= nodes.Keys && seen <= seen' <= seen + nodes.Keys
      invariant nodes.Keys - todo <= seen'
      invariant Lists(peers, candidates', seen')
      invariant limit.Some? ==> |candidates'| < limit.value
    {
      var id :| id in todo;
      todo := todo - {id};
      if id !in seen' {
        ListOne(peers, candidates', seen', id);
        candidates', seen' := candidates' + [NodeInfo(id, nodes[id])], seen' + {id};
        if limit.Some? && |candidates'| >= limit.value {
          full := true;
          return;
        }
      }
    }
  }

  class DHT {
    const nodeID: NodeID
    var kbuckets: seq<map<NodeID, string>>
    var lriTime: seq<map<NodeID, int>>
    var peers: map<NodeID, string>

    /** `peers` is the disjoint union of the buckets, every identifier in its own bucket. */
    ghost predicate Valid()
      reads this
    {
      && |kbuckets| == 256 && |lriTime| == 256
      && (forall j :: 0 <= j < 256 ==> lriTime[j].Keys == kbuckets[j].Keys)
      && (forall j, id :: 0 <= j < 256 ==> (id in kbuckets[j] <==> id in peers && Bucket(nodeID, id) == j))
      && (forall j, id :: 0 <= j < 256 && id in kbuckets[j] ==> kbuckets[j][id] == peers[id])
    }

    constructor (selfID: NodeID)
      ensures Valid() && nodeID == selfID && peers == map[]
    {
      nodeID := selfID;
      kbuckets := seq(256, _ => map[]);
      lriTime := seq(256, _ => map[]);
      peers := map[];
    }

    method AddNode(peerID: NodeID, addr: string, stamp: int)
      requires Valid()
      modifies this
      ensures Valid() && peers == old(peers)[peerID := addr]
    {
      hide Bucket;
      var idx := BucketIndex(nodeID, peerID);
      BucketRange(nodeID, peerID);
      var nodes: map<NodeID, string>, times: map<NodeID, int> := kbuckets[idx], lriTime[idx];
      nodes, times := nodes[peerID := addr], times[peerID := stamp];
      kbuckets, lriTime := kbuckets[idx := nodes], lriTime[idx := times];
      peers := peers[peerID := addr];
    }

    method RemoveNode(peerID: NodeID)
      requires Valid()
      modifies this
      ensures Valid() && peers == old(peers) - {peerID}
    {
      hide Bucket;
      var idx := BucketIndex(nodeID, peerID);
      BucketRange(nodeID, peerID);
      kbuckets, lriTime := kbuckets[idx := kbuckets[idx] - {peerID}], lriTime[idx := lriTime[idx] - {peerID}];
      peers := peers - {peerID};
    }

    /** `Announce`: files the address under the hash of the digest. `panicked` is the slice
        `chunkDigest[:12]` of the log line. */
    method Announce(chunkDigest: string, peerAddr: string, hash: string -> NodeID, stamp: int) returns (panicked: bool)
      requires Valid()
      modifies this
      ensures Valid() && panicked == (|chunkDigest| < 12)
      ensures peers == if panicked then old(peers) else old(peers)[hash(chunkDigest) := peerAddr]
    {
      panicked := |chunkDigest| < 12;
      if !panicked { AddNode(hash(chunkDigest), peerAddr, stamp); }
    }

    lemma BucketInPeers(j: int)
      requires Valid() && 0 <= j < 256
      ensures |kbuckets| == 256
      ensures forall id :: id in kbuckets[j] ==> id in peers && kbuckets[j][id] == peers[id]
    {
      hide Bucket;
    }

    /** Everything closer than `r` is listed, and nothing at `r` or beyond. */
    ghost predicate Ball(home: int, r: nat, seen: set<NodeID>)
      reads this
    {
      forall id :: id in peers ==> (id in seen <==> Radius(nodeID, home, id) < r)
    }

    /** Everything closer than `r` is listed, and nothing beyond `r`. */
    ghost predicate Between(home: int, r: nat, seen: set<NodeID>)
      reads this
    {
      forall id :: id in peers ==>
        (Radius(nodeID, home, id) < r ==> id in seen) && (id in seen ==> Radius(nodeID, home, id) <= r)
    }

    /** One ring: the buckets within `r` of home, clamped to the table. */
    method Ring(home: int, r: nat, candidates: seq<NodeInfo<NodeID>>, seen: set<NodeID>)
      returns (candidates': seq<NodeInfo<NodeID>>, seen': set<NodeID>, full: bool)
      requires Valid() && 0 <= home < 256 && 1 <= r < 256
      requires Lists(peers, candidates, seen) && |candidates| < K && Ball(home, r, seen)
      ensures Lists(peers, candidates', seen') && seen <= seen'
      ensures full ==> |candidates'| == K && Between(home, r, seen')
      ensures !full ==> |candidates'| < K && Ball(home, r + 1, seen')
    {
      hide Bucket;
      var lo, hi := home - r, home + r;
      if lo < 0 { lo := 0; }
      if hi >= 256 { hi := 255; }
      candidates', seen', full := candidates, seen, false;
      var j := lo;
      while j <= hi
        invariant lo <= j <= hi + 1
        invariant Lists(peers, candidates', seen') && |candidates'| < K && seen <= seen'
        invariant Between(home, r, seen')
        invariant forall id :: id in peers && lo <= Bucket(nodeID, id) < j ==> id in seen'
      {
        ghost var before := seen';
        BucketInPeers(j);
        candidates', seen', full := Collect(kbuckets[j], peers, candidates', seen', Some(K));
        RingStep(home, r, j, before, seen');
        if full { return; }
        assert forall id :: id in peers && Bucket(nodeID, id) == j ==> id in kbuckets[j];
        j := j + 1;
      }
      BallFromRing(home, r, lo, hi, seen');
    }

    lemma RingStep(home: int, r: nat, j: int, seen: set<NodeID>, seen': set<NodeID>)
      requires Valid() && 0 <= j < 256 && home - r <= j <= home + r && Between(home, r, seen)
      requires seen <= seen' <= seen + kbuckets[j].Keys
      ensures Between(home, r, seen')
    {
      hide Bucket;
      forall id | id in peers && id in seen' ensures Radius(nodeID, home, id) <= r {
        if id !in seen { assert id in kbuckets[j]; }
      }
    }

    lemma BallFromRing(home: int, r: nat, lo: int, hi: int, seen: set<NodeID>)
      requires Valid() && Between(home, r, seen)
      requires lo == (if home - r < 0 then 0 else home - r) && hi == (if home + r >= 256 then 255 else home + r)
      requires forall id :: id in peers && lo <= Bucket(nodeID, id) < hi + 1 ==> id in seen
      ensures Ball(home, r + 1, seen)
    {
      hide Bucket;
      forall id | id in peers ensures id in seen <==> Radius(nodeID, home, id) < r + 1 { BucketRange(nodeID, id); }
    }

    /** `FindNode`: the whole home bucket, then outward ring by ring until K nodes are found.
        The result lists distinct stored nodes, as many as there are up to K but never fewer
        than the home bucket holds, and leaves out no node closer than one it lists. */
    method FindNode(target: NodeID) returns (candidates: seq<NodeInfo<NodeID>>, ghost seen: set<NodeID>)
      requires Valid()
      ensures Lists(peers, candidates, seen)
      ensures var home := Bucket(nodeID, target);
              && kbuckets[home].Keys <= seen
              && |candidates| == Max(|kbuckets[home]|, Min(8, |peers|))
              && forall a, b :: a in seen && b in peers && b !in seen ==>
                   Radius(nodeID, home, a) <= Radius(nodeID, home, b)
      ensures target in peers ==> NodeInfo(target, peers[target]) in candidates
    {
      hide Bucket;
      hide Lists;
      hide Ball;
      hide Between;
      hide Radius;
      var home := BucketIndex(nodeID, target);
      BucketRange(nodeID, target);
      var found: set<NodeID>, full;
      EmptyList();
      BucketInPeers(home);
      candidates, found, full := Collect(kbuckets[home], peers, [], {}, None);
      assert found == kbuckets[home].Keys;
      HomeIsBall(home, found);
      var i := 1;
      while i < 256 && |candidates| < K
        invariant 1 <= i <= 256 && Lists(peers, candidates, found) && kbuckets[home].Keys <= found
        invariant Ball(home, i, found)
        invariant i > 1 ==> |candidates| < K
        invariant i == 1 ==> found == kbuckets[home].Keys
      {
        ghost var inner := found;
        ghost var short := candidates;
        candidates, found, full := Ring(home, i, candidates, found);
        if full {
          seen := found;
          ListsSize(short, inner);
          SubsetCard(kbuckets[home].Keys, inner);
          Conclude(target, candidates, seen);
          ListsSize(candidates, seen);
          BetweenOrders(home, i, seen);
          return;
        }
        i := i + 1;
      }
      seen := found;
      ListsSize(candidates, seen);
      if i == 256 { WholeTable(home, seen); }
      SubsetCard(kbuckets[home].Keys, seen);
      Conclude(target, candidates, seen);
      BallOrders(home, i, seen);
    }

    lemma EmptyList()
      ensures Lists(peers, [], {})
    {
    }

    lemma ListsSize(candidates: seq<NodeInfo<NodeID>>, seen: set<NodeID>)
      requires Lists(peers, candidates, seen)
      ensures |candidates| == |seen| && seen <= peers.Keys
    {
    }

    lemma WholeTable(home: int, seen: set<NodeID>)
      requires 0 <= home < 256 && Ball(home, 256, seen) && seen <= peers.Keys
      ensures seen == peers.Keys
    {
      hide Bucket;
      forall id | id in peers ensures id in seen { BucketRange(nodeID, id); }
    }

    /** The count, for each of the three ways the search can end. */
    lemma Conclude(target: NodeID, candidates: seq<NodeInfo<NodeID>>, seen: set<NodeID>)
      requires Valid() && Lists(peers, candidates, seen)
      requires kbuckets[Bucket(nodeID, target)].Keys <= seen
      requires var home := kbuckets[Bucket(nodeID, target)];
               || (|candidates| == K && |home.Keys| <= K)
               || (|candidates| >= K && seen == home.Keys)
               || (|candidates| < K && seen == peers.Keys)
      ensures |candidates| == Max(|kbuckets[Bucket(nodeID, target)]|, Min(K, |peers|))
      ensures target in peers ==> NodeInfo(target, peers[target]) in candidates
    {
      hide Bucket;
      BucketRange(nodeID, target);
      var home := kbuckets[Bucket(nodeID, target)];
      assert |home.Keys| == |home| && |peers.Keys| == |peers|;
      SubsetCard(home.Keys, seen);
      SubsetCard(seen, peers.Keys);
      assert target in peers ==> target in home;
    }

    lemma HomeIsBall(home: int, seen: set<NodeID>)
      requires Valid() && 0 <= home < 256 && seen == kbuckets[home].Keys
      ensures Ball(home, 1, seen)
    {
      hide Bucket;
    }

    lemma BallOrders(home: int, r: nat, seen: set<NodeID>)
      requires Ball(home, r, seen) && seen <= peers.Keys
      ensures forall a, b :: a in seen && b in peers && b !in seen ==>
          Radius(nodeID, home, a) <= Radius(nodeID, home, b)
    {
      hide Radius;
    }

    lemma BetweenOrders(home: int, r: nat, seen: set<NodeID>)
      requires Between(home, r, seen) && seen <= peers.Keys
      ensures forall a, b :: a in seen && b in peers && b !in seen ==>
          Radius(nodeID, home, a) <= Radius(nodeID, home, b)
    {
      hide Radius;
    }
  }

  function Max(a: nat, b: nat): nat { if a >= b then a else b }
  function Min(a: nat, b: nat): nat { if a <= b then a else b }

  lemma BucketRange(self: NodeID, id: NodeID)
    ensures 0 <= Bucket(self, id) < 256
  {
  }
}
