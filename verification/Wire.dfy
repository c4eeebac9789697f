/** internal/p2p/peer.go: length-prefixed frames, message encoders and decoder, and the
    send path of one connection. */
module Wire {
  type Byte = b: int | 0 <= b < 256
  type Bytes = seq<Byte>

  const WRAP: int := 0x1_0000_0000  // uint32 conversions wrap here

  /** `binary.BigEndian.PutUint32`. */
  function Be32(n: int): (b: Bytes)
    requires 0 <= n < WRAP
    ensures |b| == 4
  {
    [n / 0x100_0000, n / 0x1_0000 % 256, n / 256 % 256, n % 256]
  }

  /** `binary.BigEndian.Uint32`. */
  function U32(b: Bytes): (n: int)
    requires |b| == 4
    ensures 0 <= n < WRAP
  {
    (b[0] as int) * 0x100_0000 + (b[1] as int) * 0x1_0000 + (b[2] as int) * 256 + b[3]
  }

  lemma Be32RoundTrip(n: int)
    requires 0 <= n < WRAP
    ensures U32(Be32(n)) == n
  {
    assert n / 0x1_0000 == n / 256 / 256 && n / 0x100_0000 == n / 256 / 256 / 256;
  }

  lemma U32RoundTrip(b: Bytes)
    requires |b| == 4
    ensures Be32(U32(b)) == b
  {
    var n, b0: int, b1: int, b2: int := U32(b), b[0], b[1], b[2];
    assert n / 256 == b0 * 0x1_0000 + b1 * 256 + b2 && n % 256 == b[3];
    assert n / 0x1_0000 == n / 256 / 256 && n / 0x100_0000 == n / 256 / 256 / 256;
    assert n / 256 / 256 == b0 * 256 + b1;
  }

  // ---- framing ----

  /** The number four bytes stand for, most significant first. */
  predicate BigEndian(b: Bytes, n: int) {
    |b| == 4 && n == 16777216 * (b[0] as int) + 65536 * (b[1] as int) + 256 * (b[2] as int) + (b[3] as int)
  }

  /** On the wire: the length, most significant byte first, and the message. */
  lemma FrameLayout(msg: Bytes)
    requires |msg| < WRAP
    ensures var f := Frame(msg); |f| == 4 + |msg| && BigEndian(f[..4], |msg|) && f[4..] == msg
  {
    hide Be32;
    Be32RoundTrip(|msg|);
    assert Frame(msg)[..4] == Be32(|msg|);
  }

  /** `writeMessage`: the length is truncated to 32 bits. */
  function Frame(msg: Bytes): Bytes { Be32(|msg| % WRAP) + msg }

  function FrameAll(msgs: seq<Bytes>): Bytes {
    if msgs == [] then [] else Frame(msgs[0]) + FrameAll(msgs[1..])
  }

  datatype Read = Got(msg: Bytes, rest: Bytes) | Short

  /** `readMessage`: `Short` is the error of `io.ReadFull` on a stream that ends too early. */
  function ReadMessage(s: Bytes): (r: Read)
    ensures r.Got? ==> |r.rest| < |s|
  {
    if |s| < 4 then Short
    else
      var size := U32(s[..4]);
      if |s| < 4 + size then Short else Got(s[4..4 + size], s[4 + size..])
  }

  /** `readLoop` on a finite stream: the messages, and the bytes left over. */
  function ReadAll(s: Bytes): (seq<Bytes>, Bytes)
    decreases |s|
  {
    match ReadMessage(s)
    case Short => ([], s)
    case Got(m, rest) => var (ms, left) := ReadAll(rest); ([m] + ms, left)
  }

  predicate Framable(msgs: seq<Bytes>) { forall i :: 0 <= i < |msgs| ==> |msgs[i]| < WRAP }

  lemma ReadFrame(m: Bytes, rest: Bytes)
    requires |m| < WRAP
    ensures ReadMessage(Frame(m) + rest) == Got(m, rest)
  {
    var s := Frame(m) + rest;
    Be32RoundTrip(|m|);
    assert s[..4] == Be32(|m|) && s[4..4 + |m|] == m && s[4 + |m|..] == rest;
  }

  /** A single message survives framing exactly when its length fits 32 bits. */
  lemma FrameRoundTripIff(m: Bytes)
    ensures ReadMessage(Frame(m)) == Got(m, []) <==> |m| < WRAP
  {
    if |m| < WRAP {
      ReadFrame(m, []);
      assert Frame(m) + [] == Frame(m);
    } else {
      var size := |m| % WRAP;
      Be32RoundTrip(size);
      assert Frame(m)[..4] == Be32(size);
    }
  }

  /** Frames sent back to back are read back as sent; what follows them stays unread. */
  lemma {:induction false} StreamRoundTrip(msgs: seq<Bytes>, tail: Bytes)
    requires Framable(msgs) && ReadMessage(tail).Short?
    ensures ReadAll(FrameAll(msgs) + tail) == (msgs, tail)
  {
    hide Frame;
    hide ReadMessage;
    if msgs == [] {
      assert FrameAll(msgs) + tail == tail;
    } else {
      var rest := FrameAll(msgs[1..]) + tail;
      StreamRoundTrip(msgs[1..], tail);
      ReadFrame(msgs[0], rest);
      assert FrameAll(msgs) + tail == Frame(msgs[0]) + rest;
      assert msgs == [msgs[0]] + msgs[1..];
    }
  }

  /** Bytes already received decide the message: later bytes cannot change it. */
  lemma ReadMore(s: Bytes, more: Bytes)
    requires ReadMessage(s).Got?
    ensures ReadMessage(s + more) == Got(ReadMessage(s).msg, ReadMessage(s).rest + more)
  {
    var t := s + more;
    var size := U32(s[..4]);
    assert t[..4] == s[..4] && t[4..4 + size] == s[4..4 + size] && t[4 + size..] == s[4 + size..] + more;
  }

  /** Cutting a stream anywhere only drops messages from the end. */
  lemma {:induction false} TruncationKeepsPrefix(s: Bytes, more: Bytes)
    ensures ReadAll(s).0 <= ReadAll(s + more).0
    decreases |s|
  {
    if ReadMessage(s).Got? {
      ReadMore(s, more);
      TruncationKeepsPrefix(ReadMessage(s).rest, more);
    }
  }

  /** Hence a connection that breaks mid-stream has delivered a prefix of what was sent. */
  lemma BrokenStreamGivesPrefix(msgs: seq<Bytes>, n: nat)
    requires Framable(msgs) && n <= |FrameAll(msgs)|
    ensures ReadAll(FrameAll(msgs)[..n]).0 <= msgs
  {
    var s := FrameAll(msgs);
    StreamRoundTrip(msgs, []);
    assert s + [] == s && s[..n] + s[n..] == s;
    TruncationKeepsPrefix(s[..n], s[n..]);
  }

  /** Whatever is read was a frame. */
  lemma ReadIsFrame(s: Bytes)
    requires ReadMessage(s).Got?
    ensures var Got(m, rest) := ReadMessage(s); |m| < WRAP && s == Frame(m) + rest
  {
    U32RoundTrip(s[..4]);
  }

  /** Reading loses nothing: messages and leftover re-frame to the stream. */
  lemma {:induction false} ReadingIsLossless(s: Bytes)
    ensures var (ms, left) := ReadAll(s); FrameAll(ms) + left == s && Framable(ms) && ReadMessage(left).Short?
    decreases |s|
  {
    hide Frame;
    hide ReadMessage;
    match ReadMessage(s)
    case Short =>
    case Got(m, rest) =>
      ReadIsFrame(s);
      ReadingIsLossless(rest);
      var (ms, left) := ReadAll(rest);
      assert ([m] + ms)[1..] == ms;
      assert FrameAll([m] + ms) + left == Frame(m) + (FrameAll(ms) + left);
  }

  lemma {:induction false} FrameAllConcat(a: seq<Bytes>, b: seq<Bytes>)
    ensures FrameAll(a + b) == FrameAll(a) + FrameAll(b)
  {
    if a == [] {
      assert a + b == b;
    } else {
      FrameAllConcat(a[1..], b);
      assert (a + b)[1..] == a[1..] + b && (a + b)[0] == a[0];
    }
  }

  // ---- messages ----

  datatype Message =
    | ChunkRequest(digest: Bytes)
    | ChunkResponse(digest: Bytes, data: Bytes)
    | FindNode(target: Bytes)
    | Unknown

  /** `Panic`: a slice expression out of bounds. Messages come from `readMessage`, so capacity
      equals length. */
  datatype Parsed = Message(msg: Message) | Panic

  /** `ParseMessage`. The slice end `37 + size` is computed in uint32. */
  function ParseMessage(msg: Bytes): Parsed {
    if |msg| < 1 then Message(Unknown)
    else if msg[0] == 1 then if |msg| < 33 then Panic else Message(ChunkRequest(msg[1..33]))
    else if msg[0] == 2 then
      if |msg| < 33 then Panic
      else if |msg| > 37 && U32(msg[33..37]) <= |msg| - 37 then
        var end := (37 + U32(msg[33..37])) % WRAP;
        if end < 37 then Panic else Message(ChunkResponse(msg[1..33], msg[37..end]))
      else Message(ChunkResponse(msg[1..33], []))
    else if msg[0] == 5 then if |msg| < 33 then Panic else Message(FindNode(msg[1..33]))
    else Message(Unknown)
  }

  /** The engine's own decoding of a chunk response, in machine integers. */
  function EngineDecode(msg: Bytes): (r: (Bytes, Bytes))
    requires |msg| >= 33
  {
    (msg[1..33],
     if |msg| > 37 && U32(msg[33..37]) <= |msg| - 37 then msg[37..37 + U32(msg[33..37])] else [])
  }

  function EncodeRequest(digest: Bytes): Bytes { [1] + digest }
  function EncodeResponse(digest: Bytes, data: Bytes): Bytes { [2] + digest + Be32(|data| % WRAP) + data }
  function EncodeFindNode(target: Bytes): Bytes { [5] + target }

  /** Parser and engine agree on a chunk response exactly when the parser's 32-bit slice end
      does not wrap; in particular on every message that came through a frame. */
  lemma DecodersAgreeIff(msg: Bytes)
    requires |msg| >= 33 && msg[0] == 2
    ensures ParseMessage(msg) == Message(ChunkResponse(EngineDecode(msg).0, EngineDecode(msg).1))
            <==> !(|msg| > 37 && U32(msg[33..37]) <= |msg| - 37 && 37 + U32(msg[33..37]) >= WRAP)
    ensures |msg| < WRAP ==> ParseMessage(msg) == Message(ChunkResponse(EngineDecode(msg).0, EngineDecode(msg).1))
  {
  }

  /** Parsing panics exactly on the three known kinds cut short of their 32 bytes, and on a
      response whose 32-bit slice end wraps; of the messages that come through a frame, exactly on
      the short ones. */
  lemma ParsePanicsIff(msg: Bytes)
    ensures ParseMessage(msg) == Panic <==>
            msg != [] && msg[0] in {1, 2, 5} &&
            (|msg| < 33 || (msg[0] == 2 && |msg| > 37 && WRAP - 37 <= U32(msg[33..37]) <= |msg| - 37))
    ensures |msg| < WRAP ==> (ParseMessage(msg) == Panic <==> msg != [] && msg[0] in {1, 2, 5} && |msg| < 33)
  {
  }

  /** The bytes of each message: its kind and 32 bytes, and for a response the length of the data and
      the data. A receiver looks at these bytes only. */
  lemma MessageLayout(digest: Bytes, data: Bytes, extra: Bytes)
    requires |digest| == 32 && |data| < WRAP
    ensures EncodeRequest(digest) == [1] + digest && EncodeFindNode(digest) == [5] + digest
    ensures var r := EncodeResponse(digest, data);
            |r| == 37 + |data| && r[..33] == [2] + digest && BigEndian(r[33..37], |data|) && r[37..] == data
    ensures ParseMessage([1] + digest + extra) == Message(ChunkRequest(digest))
    ensures ParseMessage([5] + digest + extra) == Message(FindNode(digest))
  {
    hide Be32;
    Be32RoundTrip(|data|);
    var r := EncodeResponse(digest, data);
    assert r[33..37] == Be32(|data|);
    assert ([1] + digest + extra)[1..33] == digest && ([5] + digest + extra)[1..33] == digest;
  }

  lemma ParseRequest(digest: Bytes)
    requires |digest| == 32
    ensures ParseMessage(EncodeRequest(digest)) == Message(ChunkRequest(digest))
    ensures ParseMessage(EncodeFindNode(digest)) == Message(FindNode(digest))
  {
    assert EncodeRequest(digest)[1..33] == digest && EncodeFindNode(digest)[1..33] == digest;
  }

  /** A chunk response survives encoding exactly when its data leaves room for the 37 header
      bytes below 2^32, which is exactly when it can be framed. */
  lemma ParseResponseIff(digest: Bytes, data: Bytes)
    requires |digest| == 32
    ensures ParseMessage(EncodeResponse(digest, data)) == Message(ChunkResponse(digest, data)) <==> |data| < WRAP - 37
    ensures |EncodeResponse(digest, data)| < WRAP <==> |data| < WRAP - 37
  {
    var size := |data| % WRAP;
    var msg := EncodeResponse(digest, data);
    Be32RoundTrip(size);
    assert msg[1..33] == digest && |msg| == 37 + |data|;
    if |data| > 0 {
      assert msg[33..37] == Be32(size);
      if 37 + size < WRAP {
        assert msg[37..37 + size] == data[..size];
        assert size == |data| ==> data[..size] == data;
      }
    }
  }

  function Encode(m: Message): Bytes
    requires Sendable(m)
  {
    match m
    case ChunkRequest(d) => EncodeRequest(d)
    case ChunkResponse(d, data) => EncodeResponse(d, data)
    case FindNode(t) => EncodeFindNode(t)
  }

  predicate Sendable(m: Message) {
    match m
    case ChunkRequest(d) => |d| == 32
    case ChunkResponse(d, data) => |d| == 32 && |data| < WRAP - 37
    case FindNode(t) => |t| == 32
    case Unknown => false
  }

  function EncodeAll(ms: seq<Message>): seq<Bytes>
    requires forall i :: 0 <= i < |ms| ==> Sendable(ms[i])
  {
    seq(|ms|, i requires 0 <= i < |ms| => Encode(ms[i]))
  }

  /** End to end: typed messages encoded, framed into one stream, read and parsed come out as
      the same list. */
  lemma EndToEnd(ms: seq<Message>)
    requires forall i :: 0 <= i < |ms| ==> Sendable(ms[i])
    ensures var (raw, left) := ReadAll(FrameAll(EncodeAll(ms)));
            left == [] && |raw| == |ms| && forall i :: 0 <= i < |ms| ==> ParseMessage(raw[i]) == Message(ms[i])
  {
    hide ParseMessage;
    hide ReadAll;
    var raw := EncodeAll(ms);
    forall i | 0 <= i < |ms| ensures |raw[i]| < WRAP && ParseMessage(raw[i]) == Message(ms[i]) {
      match ms[i]
      case ChunkRequest(d) => ParseRequest(d);
      case FindNode(t) => ParseRequest(t);
      case ChunkResponse(d, data) => ParseResponseIff(d, data);
    }
    StreamRoundTrip(raw, []);
    assert FrameAll(raw) + [] == FrameAll(raw);
  }

  lemma FrameAllSnoc(received: Bytes, transit: Bytes, f: seq<Bytes>, msg: Bytes)
    requires received + transit == FrameAll(f)
    ensures received + (transit + Frame(msg)) == FrameAll(f + [msg])
  {
    hide Frame;
    FrameAllConcat(f, [msg]);
    assert FrameAll([msg]) == Frame(msg) + FrameAll([]);
    assert received + (transit + Frame(msg)) == received + transit + Frame(msg);
  }

  lemma QueueMoves(front: seq<Bytes>, f: seq<Bytes>, q: seq<Bytes>)
    requires q != []
    ensures front + f + q == front + (f + [q[0]]) + q[1..]
  {
  }

  lemma HeadOfFrames(f: seq<Bytes>)
    requires Framable(f) && ReadMessage(FrameAll(f)).Got?
    ensures f != [] && ReadMessage(FrameAll(f)) == Got(f[0], FrameAll(f[1..]))
  {
    if f != [] { ReadFrame(f[0], FrameAll(f[1..])); }
  }

  lemma FramablePart(a: seq<Bytes>, f: seq<Bytes>, b: seq<Bytes>)
    requires Framable(a + f + b)
    ensures Framable(f)
  {
    assert forall i :: 0 <= i < |f| ==> f[i] == (a + f + b)[|a| + i];
  }

  // ---- one direction of a connection ----

  const CHANNEL := 64  // capacity of writeCh and readCh

  /** The send queue of a `PeerConn`, the bytes between the two sockets, and the receive queue
      at the other end. `transit` has been written but not yet received. */
  class Link {
    var writeCh: seq<Bytes>
    var transit: Bytes
    var received: Bytes
    var readCh: seq<Bytes>
    ghost var accepted: seq<Bytes>  // every message `send` took
    ghost var taken: seq<Bytes>     // every message handed to the consumer of ReadCh

    /** Nothing lost, duplicated or reordered, as long as every accepted message can be framed. */
    ghost predicate Valid()
      reads this
    {
      && |writeCh| <= CHANNEL && |readCh| <= CHANNEL
      && (Framable(accepted) ==>
            exists inFlight: seq<Bytes> ::
              received + transit == FrameAll(inFlight) && accepted == taken + readCh + inFlight + writeCh)
    }

    constructor ()
      ensures Valid() && accepted == [] && taken == []
    {
      writeCh, transit, received, readCh, accepted, taken := [], [], [], [], [], [];
      new;
      var none: seq<Bytes> := [];
      assert received + transit == FrameAll(none) && accepted == taken + readCh + none + writeCh;
    }

    /** `send`: refuses when the queue is full. */
    method Send(msg: Bytes) returns (ok: bool)
      requires Valid()
      modifies this
      ensures Valid() && unchanged(`taken, `transit, `received, `readCh)
      ensures writeCh == if ok then old(writeCh) + [msg] else old(writeCh)
      ensures ok <==> |old(writeCh)| < 64
      ensures accepted == if ok then old(accepted) + [msg] else old(accepted)
    {
      hide FrameAll;
      ok := |writeCh| < CHANNEL;
      if ok {
        ghost var was := accepted;
        writeCh, accepted := writeCh + [msg], accepted + [msg];
        if Framable(accepted) {
          assert Framable(was) by { assert forall i :: 0 <= i < |was| ==> was[i] == accepted[i]; }
          ghost var f :| received + transit == FrameAll(f) && was == taken + readCh + f + old(writeCh);
          assert accepted == taken + readCh + f + writeCh;
        }
      }
    }

    /** One turn of `writeLoop`: the oldest queued message goes out framed. */
    method WriteOne()
      requires Valid()
      modifies this
      ensures Valid() && unchanged(`accepted, `taken, `received, `readCh)
      ensures writeCh == if old(writeCh) == [] then [] else old(writeCh)[1..]
      ensures transit == if old(writeCh) == [] then old(transit) else old(transit) + Frame(old(writeCh)[0])
    {
      hide FrameAll;
      hide Frame;
      if writeCh == [] { return; }
      var msg := writeCh[0];
      writeCh := writeCh[1..];
      transit := transit + Frame(msg);
      if Framable(accepted) {
        ghost var f :| received + old(transit) == FrameAll(f) && accepted == taken + readCh + f + old(writeCh);
        FrameAllSnoc(received, old(transit), f, msg);
        QueueMoves(taken + readCh, f, old(writeCh));
        assert received + transit == FrameAll(f + [msg]) && accepted == taken + readCh + (f + [msg]) + writeCh;
      }
    }

    /** Any number of bytes arrive. */
    method Deliver(n: nat)
      requires Valid() && n <= |transit|
      modifies this
      ensures Valid() && unchanged(`accepted, `taken, `writeCh, `readCh)
      ensures received + transit == old(received + transit) && |received| == |old(received)| + n
    {
      received, transit := received + transit[..n], transit[n..];
      assert received + transit == old(received + transit);
    }

    /** One turn of `readLoop`: a complete frame moves to the receive queue. */
    method ReadOne() returns (ok: bool)
      requires Valid()
      modifies this
      ensures Valid() && unchanged(`accepted, `taken, `writeCh, `transit)
      ensures ok <==> |old(readCh)| < 64 && ReadMessage(old(received)).Got?
      ensures ok ==>
          readCh == old(readCh) + [ReadMessage(old(received)).msg] && received == ReadMessage(old(received)).rest
      ensures !ok ==> unchanged(this)
    {
      hide FrameAll;
      hide ReadMessage;
      var r := ReadMessage(received);
      ok := |readCh| < CHANNEL && r.Got?;
      if ok {
        readCh, received := readCh + [r.msg], r.rest;
        if Framable(accepted) {
          ghost var f :| old(received) + transit == FrameAll(f) && accepted == taken + old(readCh) + f + writeCh;
          ReadMore(old(received), transit);
          FramablePart(taken + old(readCh), f, writeCh);
          HeadOfFrames(f);
          assert received + transit == FrameAll(f[1..]);
          assert accepted == taken + readCh + f[1..] + writeCh;
        }
      }
    }

    /** The consumer of `ReadCh` takes the oldest message. */
    method Take() returns (msg: Bytes)
      requires Valid() && readCh != []
      modifies this
      ensures Valid() && unchanged(`accepted, `writeCh, `transit, `received)
      ensures taken == old(taken) + [msg] && old(readCh) == [msg] + readCh
      ensures Framable(accepted) ==> taken <= accepted
    {
      hide FrameAll;
      msg := readCh[0];
      readCh, taken := readCh[1..], taken + [msg];
      if Framable(accepted) {
        ghost var f :| received + transit == FrameAll(f) && accepted == old(taken) + old(readCh) + f + writeCh;
        assert accepted == taken + readCh + f + writeCh;
      }
    }
  }
}
