/** internal/p2p/torrent.go: the chunk-request engine as a transition system. Each event is one
    critical section (or one channel operation) of a goroutine; a run is any list of events, in
    any order, with events that are not enabled ignored. */
module Torrent {
  import opened Text
  import opened Wire
  import opened Dht

  datatype Outcome = Data(data: Bytes) | InFlight | NotConnected | SendFailed | TimedOut | Panicked

  /** Where a `RequestChunk` call stands. `Leaving`: its result is fixed, its deferred delete is
      still to run. */
  datatype Phase = Registered | Connected | Waiting | Leaving(outcome: Outcome) | Done(outcome: Outcome)

  datatype Call = Call(key: Bytes, phase: Phase)

  /** Calls are numbered; the channel a call makes carries its number. `sent[c]` lists every value
      ever sent on channel `c`. `owed` holds the piece-count increments that handlers still owe.
      `history` (chunk responses handled), `heard` (how many from each peer), `disturbed` (peers
      removed or added again) and `evicted` (calls whose entry another call deleted) only record
      what happened. */
  datatype State = State(
    peers: set<NodeID>,
    pieceCount: map<NodeID, nat>,
    pending: map<Bytes, nat>,
    calls: map<nat, Call>,
    sent: map<nat, seq<Bytes>>,
    joined: set<NodeID>,
    owed: multiset<NodeID>,
    history: seq<Bytes>,
    heard: multiset<NodeID>,
    disturbed: set<NodeID>,
    evicted: set<nat>)

  datatype Event =
    | AddPeer(n: NodeID)
    | RemovePeer(n: NodeID)
    | Begin(c: nat, key: Bytes)       // first section of RequestChunk
    | LookUp(c: nat, n: NodeID)       // peer lookup
    | Send(c: nat, accepted: bool)    // SendChunkRequest
    | Receive(c: nat)                 // data case of the select
    | Timeout(c: nat)                 // timer case of the select
    | Finish(c: nat)                  // deferred delete and return
    | Respond(n: NodeID, msg: Bytes)  // handler, pending section
    | Count(n: NodeID)                // handler, piece-count section

  const INIT := State({}, map[], map[], map[], map[], {}, multiset{}, [], multiset{}, {}, {})

  function SetPhase(s: State, c: nat, p: Phase): State
    requires c in s.calls
  {
    s.(calls := s.calls[c := s.calls[c].(phase := p)])
  }

  predicate InPhase(s: State, c: nat, p: Phase) { c in s.calls && s.calls[c].phase == p }

  /** The error text quotes `digest[:12]`. */
  function Quoting(key: Bytes, o: Outcome): Outcome { if |key| < 12 then Panicked else o }

  function Apply(s: State, e: Event): State {
    match e
    case AddPeer(n) =>
      s.(peers := s.peers + {n}, pieceCount := s.pieceCount[n := 0], joined := s.joined + {n},
         disturbed := if n in s.joined then s.disturbed + {n} else s.disturbed)
    case RemovePeer(n) =>
      s.(peers := s.peers - {n}, pieceCount := s.pieceCount - {n}, disturbed := s.disturbed + {n})
    case Begin(c, key) =>
      if c in s.calls then s
      else if key in s.pending then
        s.(calls := s.calls[c := Call(key, Done(Quoting(key, InFlight)))], sent := s.sent[c := []])
      else s.(pending := s.pending[key := c], calls := s.calls[c := Call(key, Registered)], sent := s.sent[c := []])
    case LookUp(c, n) =>
      if !InPhase(s, c, Registered) then s
      else SetPhase(s, c, if n in s.peers then Connected else Leaving(NotConnected))
    case Send(c, accepted) =>
      if !InPhase(s, c, Connected) then s else SetPhase(s, c, if accepted then Waiting else Leaving(SendFailed))
    case Receive(c) =>
      if !InPhase(s, c, Waiting) || c !in s.sent || s.sent[c] == [] then s
      else SetPhase(s, c, Leaving(Data(s.sent[c][0])))
    case Timeout(c) =>
      if !InPhase(s, c, Waiting) then s else SetPhase(s, c, Leaving(Quoting(s.calls[c].key, TimedOut)))
    case Finish(c) =>
      if c !in s.calls || !s.calls[c].phase.Leaving? then s
      else
        var key := s.calls[c].key;
        SetPhase(s, c, Done(s.calls[c].phase.outcome)).(
          pending := s.pending - {key},
          evicted := if key in s.pending && s.pending[key] != c then s.evicted + {s.pending[key]} else s.evicted)
    case Respond(n, msg) =>
      if n !in s.joined || |msg| < 33 || msg[0] != 2 then s
      else
        var (key, data) := EngineDecode(msg);
        var s' := s.(history := s.history + [msg], owed := s.owed + multiset{n}, heard := s.heard + multiset{n});
        if key !in s.pending || s.pending[key] !in s.sent then s'
        else
          var c := s.pending[key];
          s'.(sent := s.sent[c := s.sent[c] + [data]], pending := s.pending - {key})
    case Count(n) =>
      if n !in s.owed then s
      else
        s.(owed := s.owed - multiset{n},
           pieceCount := s.pieceCount[n := 1 + if n in s.pieceCount then s.pieceCount[n] else 0])
  }

  /** The state a run ends in. */
  function Exec(es: seq<Event>): State {
    if es == [] then INIT else Apply(Exec(es[..|es| - 1]), es[|es| - 1])
  }

  // ---- invariants ----

  predicate Active(p: Phase) { !p.Done? }

  /** A handled response carried `key` and decodes to `v`. */
  ghost predicate Answered(s: State, key: Bytes, v: Bytes) {
    exists msg :: msg in s.history && |msg| >= 33 && msg[0] == 2 && EngineDecode(msg) == (key, v)
  }

  /** Every registration belongs to a running call for that very key, whose channel is empty. */
  ghost predicate PendingOk(s: State) {
    forall k :: k in s.pending ==>
      && s.pending[k] in s.calls && s.pending[k] in s.sent
      && s.calls[s.pending[k]].key == k && Active(s.calls[s.pending[k]].phase) && s.sent[s.pending[k]] == []
  }

  /** A channel carries at most one value, and it comes from a response for the call's key. */
  ghost predicate ChannelsOk(s: State) {
    && s.sent.Keys == s.calls.Keys
    && forall c :: c in s.sent ==> |s.sent[c]| <= 1 && (s.sent[c] != [] ==> Answered(s, s.calls[c].key, s.sent[c][0]))
  }

  /** A call that returns data returns the value of its own channel. */
  ghost predicate OutcomesOk(s: State) {
    forall c :: c in s.calls && c in s.sent ==>
      match s.calls[c].phase
      case Leaving(Data(v)) => s.sent[c] == [v]
      case Done(Data(v)) => s.sent[c] == [v]
      case _ => true
  }

  /** A running call is registered exactly until it is answered or another call's deferred delete
      removes its entry. */
  ghost predicate RegistrationOk(s: State) {
    forall c :: c in s.calls && c in s.sent && Active(s.calls[c].phase) ==>
      ((s.calls[c].key in s.pending && s.pending[s.calls[c].key] == c) <==> (s.sent[c] == [] && c !in s.evicted))
  }

  ghost predicate EvictedKnown(s: State) {
    s.evicted <= s.calls.Keys
  }

  /** Every response is counted: what a peer has been credited with and what it is still owed add
      up to what was heard from it, unless the peer was removed or added twice. */
  ghost predicate CountsOk(s: State) {
    && s.peers <= s.pieceCount.Keys && s.peers <= s.joined
    && (forall n :: n !in s.joined ==> s.heard[n] == 0 && s.owed[n] == 0)
    && (forall n :: n in s.peers && n !in s.disturbed ==> s.pieceCount[n] + s.owed[n] == s.heard[n])
  }

  ghost predicate Inv(s: State) {
    && CountsOk(s)
    && PendingOk(s) && ChannelsOk(s) && OutcomesOk(s) && RegistrationOk(s) && EvictedKnown(s)
  }

  lemma HistoryGrows(s: State, s': State)
    requires s.history <= s'.history && ChannelsOk(s)
    requires s'.sent == s.sent && s'.calls.Keys == s.calls.Keys
    requires forall c :: c in s.calls ==> s'.calls[c].key == s.calls[c].key
    ensures ChannelsOk(s')
  {
    forall c | c in s'.sent && s'.sent[c] != [] ensures Answered(s', s'.calls[c].key, s'.sent[c][0]) {
      assert Answered(s, s.calls[c].key, s.sent[c][0]);
      var msg :| msg in s.history && |msg| >= 33 && msg[0] == 2 && EngineDecode(msg) == (s.calls[c].key, s.sent[c][0]);
      assert msg in s'.history;
    }
  }

  lemma KeepPeers(s: State, e: Event)
    requires Inv(s) && (e.AddPeer? || e.RemovePeer? || e.Count?)
    ensures Inv(Apply(s, e))
  {
    HistoryGrows(s, Apply(s, e));
  }

  /** A new call with a fresh, empty channel leaves the channels in order. */
  lemma NewChannel(s: State, s': State, c: nat)
    requires ChannelsOk(s) && c !in s.calls && c in s'.calls && s'.history == s.history
    requires s'.calls == s.calls[c := s'.calls[c]] && s'.sent == s.sent[c := []]
    ensures ChannelsOk(s')
  {
    forall d | d in s'.sent && s'.sent[d] != [] ensures Answered(s', s'.calls[d].key, s'.sent[d][0]) {
      assert Answered(s, s.calls[d].key, s.sent[d][0]);
    }
  }

  lemma NewRegistration(s: State, s': State, c: nat, key: Bytes)
    requires Inv(s) && c !in s.calls && c in s'.calls && s'.calls[c].key == key && s'.evicted == s.evicted
    requires s'.calls == s.calls[c := s'.calls[c]] && s'.sent == s.sent[c := []]
    requires if key in s.pending then
               s'.pending == s.pending && s'.calls[c].phase.Done? && !s'.calls[c].phase.outcome.Data?
             else s'.pending == s.pending[key := c] && s'.calls[c].phase == Registered
    ensures PendingOk(s') && RegistrationOk(s') && OutcomesOk(s') && EvictedKnown(s')
  {
    hide Answered;
  }

  lemma KeepBegin(s: State, c: nat, key: Bytes)
    requires Inv(s)
    ensures Inv(Apply(s, Begin(c, key)))
  {
    hide ChannelsOk;
    hide RegistrationOk;
    hide OutcomesOk;
    hide PendingOk;
    var s' := Apply(s, Begin(c, key));
    if c !in s.calls {
      NewChannel(s, s', c);
      NewRegistration(s, s', c, key);
    }
  }

  /** A call may move on as long as it stays active and returns only its own data. */
  lemma KeepPhase(s: State, c: nat, p: Phase)
    requires Inv(s) && c in s.calls && s.calls[c].phase in {Registered, Connected, Waiting}
    requires Active(p) && (p.Leaving? && p.outcome.Data? ==> s.sent[c] == [p.outcome.data])
    ensures Inv(SetPhase(s, c, p))
  {
    HistoryGrows(s, SetPhase(s, c, p));
  }

  lemma KeepMove(s: State, e: Event)
    requires Inv(s) && (e.LookUp? || e.Send? || e.Receive? || e.Timeout?)
    ensures Inv(Apply(s, e))
  {
    var s' := Apply(s, e);
    if s' != s {
      assert e.Receive? ==> s.sent[e.c] == [s.sent[e.c][0]] by { assert ChannelsOk(s); }
      KeepPhase(s, e.c, s'.calls[e.c].phase);
      assert s' == SetPhase(s, e.c, s'.calls[e.c].phase);
    }
  }

  /** Leaving deletes whatever is registered under the call's key, its own entry or another's. */
  lemma FinishRegistration(s: State, s': State, c: nat)
    requires Inv(s) && c in s.calls && s.calls[c].phase.Leaving? && s'.sent == s.sent
    requires s'.calls == s.calls[c := s.calls[c].(phase := Done(s.calls[c].phase.outcome))]
    requires var key := s.calls[c].key;
             && s'.pending == s.pending - {key}
             && s'.evicted == s.evicted + (if key in s.pending && s.pending[key] != c then {s.pending[key]} else {})
    ensures PendingOk(s') && RegistrationOk(s') && OutcomesOk(s') && EvictedKnown(s')
  {
    hide Answered;
  }

  lemma KeepFinish(s: State, c: nat)
    requires Inv(s)
    ensures Inv(Apply(s, Finish(c)))
  {
    hide ChannelsOk;
    hide RegistrationOk;
    hide OutcomesOk;
    hide PendingOk;
    var s' := Apply(s, Finish(c));
    if s' != s {
      KeysKept(s, s');
      FinishRegistration(s, s', c);
    }
  }

  lemma KeysKept(s: State, s': State)
    requires ChannelsOk(s) && s'.history == s.history && s'.sent == s.sent && s'.calls.Keys == s.calls.Keys
    requires forall c :: c in s.calls ==> s'.calls[c].key == s.calls[c].key
    ensures ChannelsOk(s')
  {
    HistoryGrows(s, s');
  }

  lemma KeepDelivery(s: State, s': State, c: nat, msg: Bytes)
    requires Inv(s) && |msg| >= 33 && msg[0] == 2
    requires var (key, data) := EngineDecode(msg);
             && key in s.pending && c == s.pending[key]
             && s' == s.(history := s.history + [msg], owed := s'.owed, heard := s'.heard,
                         sent := s.sent[c := s.sent[c] + [data]],
                         pending := s.pending - {key})
    requires CountsOk(s')
    ensures Inv(s')
  {
    hide EngineDecode;
    assert s.sent[c] == [] && s.calls[c].key == EngineDecode(msg).0 by { assert PendingOk(s); }
    forall d | d in s'.sent && s'.sent[d] != []
        ensures |s'.sent[d]| <= 1 && Answered(s', s'.calls[d].key, s'.sent[d][0]) {
      if d == c {
        assert msg in s'.history;
      } else {
        assert Answered(s, s.calls[d].key, s.sent[d][0]);
        var m :| m in s.history && |m| >= 33 && m[0] == 2 && EngineDecode(m) == (s.calls[d].key, s.sent[d][0]);
        assert m in s'.history;
      }
    }
    DeliveryRegistration(s, s', c, EngineDecode(msg).0);
  }

  lemma DeliveryRegistration(s: State, s': State, c: nat, key: Bytes)
    requires Inv(s) && key in s.pending && c == s.pending[key]
    requires s'.calls == s.calls && s'.evicted == s.evicted && s'.pending == s.pending - {key}
    requires s'.sent.Keys == s.sent.Keys && s'.sent[c] != [] && forall d :: d in s.sent && d != c ==>
        s'.sent[d] == s.sent[d]
    ensures PendingOk(s') && RegistrationOk(s')
  {
    forall k | k in s'.pending ensures s'.pending[k] != c { assert s.calls[s.pending[k]].key == k; }
  }

  lemma KeepRespond(s: State, n: NodeID, msg: Bytes)
    requires Inv(s)
    ensures Inv(Apply(s, Respond(n, msg)))
  {
    hide EngineDecode;
    hide Inv;
    hide CountsOk;
    var s' := Apply(s, Respond(n, msg));
    if s' != s {
      RespondCounted(s, s', n);
      var key := EngineDecode(msg).0;
      if key in s.pending {
        PendingHasChannel(s, key);
        KeepDelivery(s, s', s.pending[key], msg);
      } else {
        KeepHistory(s, s');
      }
    }
  }

  lemma RespondCounted(s: State, s': State, n: NodeID)
    requires Inv(s) && n in s.joined && s'.owed == s.owed + multiset{n} && s'.heard == s.heard + multiset{n}
    requires s'.peers == s.peers && s'.pieceCount == s.pieceCount && s'.joined == s.joined &&
        s'.disturbed == s.disturbed
    ensures CountsOk(s')
  {
  }

  lemma PendingHasChannel(s: State, key: Bytes)
    requires Inv(s) && key in s.pending
    ensures s.pending[key] in s.sent
  {
  }

  lemma KeepHistory(s: State, s': State)
    requires Inv(s) && s.history <= s'.history && s' == s.(history := s'.history, owed := s'.owed, heard := s'.heard)
    requires CountsOk(s')
    ensures Inv(s')
  {
    HistoryGrows(s, s');
  }

  lemma Keep(s: State, e: Event)
    requires Inv(s)
    ensures Inv(Apply(s, e))
  {
    hide *;
    match e
    case Begin(c, key) => KeepBegin(s, c, key);
    case Finish(c) => KeepFinish(s, c);
    case Respond(n, msg) => KeepRespond(s, n, msg);
    case AddPeer(_) => KeepPeers(s, e);
    case RemovePeer(_) => KeepPeers(s, e);
    case Count(_) => KeepPeers(s, e);
    case _ => KeepMove(s, e);
  }

  /** Safety of every run. */
  lemma {:induction false} Safety(es: seq<Event>)
    ensures Inv(Exec(es))
  {
    hide Apply;
    hide Inv;
    if es == [] {
      assert Inv(INIT) by { InitOk(); }
    } else {
      Safety(es[..|es| - 1]);
      Keep(Exec(es[..|es| - 1]), es[|es| - 1]);
    }
  }

  lemma InitOk()
    ensures Inv(INIT)
  {
  }

  // ---- what every run guarantees ----

  /** Sending the answer, done under the pending lock, finds the one-place channel empty; and no
      two keys share a channel. */
  lemma SendNeverBlocks(es: seq<Event>, k: Bytes, k': Bytes)
    requires k in Exec(es).pending && k' in Exec(es).pending
    ensures var s := Exec(es); s.pending[k] in s.sent && s.sent[s.pending[k]] == []
    ensures var s := Exec(es); s.pending[k] == s.pending[k'] ==> k == k'
  {
    hide Exec;
    Safety(es);
  }

  /** No registration outlives its call. */
  lemma NoStaleRegistration(es: seq<Event>, k: Bytes)
    requires k in Exec(es).pending
    ensures var s := Exec(es);
            s.pending[k] in s.calls && s.calls[s.pending[k]].key == k && !s.calls[s.pending[k]].phase.Done?
  {
    hide Exec;
    Safety(es);
  }

  // ---- what the records say of a run ----

  /** How many chunk responses from `n` a run handled: those that came after `n` was first added. */
  function Responses(es: seq<Event>, n: NodeID): nat {
    if es == [] then 0
    else
      var front, last := es[..|es| - 1], es[|es| - 1];
      Responses(front, n) +
      if last.Respond? && last.n == n && |last.msg| >= 33 && last.msg[0] == 2 && AddPeer(n) in front then 1 else 0
  }

  lemma {:induction false} PeerRecords(es: seq<Event>, n: NodeID)
    ensures var s := Exec(es);
            && (n in s.joined <==> AddPeer(n) in es)
            && (n in s.disturbed <==> RemovePeer(n) in es || multiset(es)[AddPeer(n)] >= 2)
            && (n in s.peers ==> AddPeer(n) in es)
            && (AddPeer(n) in es && RemovePeer(n) !in es ==> n in s.peers)
            && s.heard[n] == Responses(es, n)
  {
    if es != [] {
      var front, last := es[..|es| - 1], es[|es| - 1];
      assert es == front + [last];
      PeerRecords(front, n);
      PeerRecordsStep(Exec(front), last, n);
    }
  }

  lemma PeerRecordsStep(s: State, e: Event, n: NodeID)
    ensures var s' := Apply(s, e);
            && (n in s'.joined <==> n in s.joined || e == AddPeer(n))
            && (n in s'.disturbed <==> n in s.disturbed || e == RemovePeer(n) || (e == AddPeer(n) && n in s.joined))
            && (n in s'.peers <==> e == AddPeer(n) || (n in s.peers && e != RemovePeer(n)))
            && s'.heard[n] == s.heard[n] +
                 if e.Respond? && e.n == n && |e.msg| >= 33 && e.msg[0] == 2 && n in s.joined then 1 else 0
  {
  }

  lemma HistoryStep(s: State, e: Event, msg: Bytes)
    requires msg in Apply(s, e).history && msg !in s.history
    ensures e.Respond? && e.msg == msg
  {
  }

  lemma {:induction false} HistoryRecords(es: seq<Event>, msg: Bytes)
    requires msg in Exec(es).history
    ensures exists n :: Respond(n, msg) in es
  {
    hide Apply;
    if es != [] {
      var front, last := es[..|es| - 1], es[|es| - 1];
      assert es == front + [last];
      if msg in Exec(front).history {
        hide Exec;
        HistoryRecords(front, msg);
        var n :| Respond(n, msg) in front;
        assert Respond(n, msg) in es;
      } else {
        HistoryStep(Exec(front), last, msg);
        assert Respond(last.n, msg) in es;
      }
    }
  }

  /** Data a call returns was carried by a response, in the run, for exactly the requested digest, and
      only 32-byte digests can ever be answered. */
  lemma DataIsGenuine(es: seq<Event>, c: nat, v: Bytes)
    requires InPhase(Exec(es), c, Done(Data(v)))
    ensures |Exec(es).calls[c].key| == 32
    ensures exists n, msg :: Respond(n, msg) in es && |msg| >= 33 && msg[0] == 2
                             && msg[1..33] == Exec(es).calls[c].key && EngineDecode(msg).1 == v
  {
    hide Exec;
    Safety(es);
    var s := Exec(es);
    assert s.sent[c] == [v] by { assert OutcomesOk(s); }
    assert Answered(s, s.calls[c].key, v);
    var msg :| msg in s.history && |msg| >= 33 && msg[0] == 2 && EngineDecode(msg) == (s.calls[c].key, v);
    HistoryRecords(es, msg);
  }

  /** While peers are connected there is a piece count to choose from, and no response is lost: for a
      peer added once and never removed, what is counted and what is still to count make up all its
      responses. */
  lemma CountsAreKept(es: seq<Event>, n: NodeID)
    ensures Exec(es).peers <= Exec(es).pieceCount.Keys
    ensures multiset(es)[AddPeer(n)] == 1 && RemovePeer(n) !in es ==>
      n in Exec(es).pieceCount && Exec(es).pieceCount[n] + Exec(es).owed[n] == Responses(es, n)
  {
    hide Exec;
    hide Responses;
    Safety(es);
    PeerRecords(es, n);
    assert multiset(es)[AddPeer(n)] == 1 ==> AddPeer(n) in multiset(es);
  }

  function Counts(n: NodeID, k: nat): seq<Event> { if k == 0 then [] else Counts(n, k - 1) + [Count(n)] }

  /** When the handlers have caught up, the count is the number of responses. */
  lemma CountsCatchUp(es: seq<Event>, n: NodeID)
    requires multiset(es)[AddPeer(n)] == 1 && RemovePeer(n) !in es
    ensures var s := Exec(es + Counts(n, Exec(es).owed[n]));
            n in s.pieceCount && s.pieceCount[n] == Responses(es, n) && s.owed[n] == 0
  {
    hide Exec;
    hide Responses;
    CountsAreKept(es, n);
    CountingMoves(es, n, Exec(es).owed[n]);
  }

  lemma {:induction false} CountingMoves(es: seq<Event>, n: NodeID, k: nat)
    requires n in Exec(es).pieceCount && k <= Exec(es).owed[n]
    ensures var s := Exec(es + Counts(n, k));
            n in s.pieceCount && s.pieceCount[n] == Exec(es).pieceCount[n] + k && s.owed[n] == Exec(es).owed[n] - k
  {
    hide Exec;
    hide Apply;
    if k == 0 {
      assert es + Counts(n, 0) == es;
    } else {
      var before := es + Counts(n, k - 1);
      CountingMoves(es, n, k - 1);
      ExecSnoc(before, Count(n));
      CountMoves(Exec(before), n);
      assert es + Counts(n, k) == before + [Count(n)];
    }
  }

  lemma CountMoves(s: State, n: NodeID)
    requires n in s.pieceCount && n in s.owed
    ensures var s' := Apply(s, Count(n));
            n in s'.pieceCount && s'.pieceCount[n] == s.pieceCount[n] + 1 && s'.owed[n] == s.owed[n] - 1
  {
  }

  /** A running call holds its registration exactly until it is answered or evicted. */
  lemma RegisteredIff(es: seq<Event>, c: nat)
    requires c in Exec(es).calls && Active(Exec(es).calls[c].phase)
    ensures c in Exec(es).sent
    ensures var s := Exec(es);
            (s.calls[c].key in s.pending && s.pending[s.calls[c].key] == c) <==> (s.sent[c] == [] && c !in s.evicted)
  {
    hide Exec;
    Safety(es);
  }

  // ---- when a waiting call loses its registration ----

  /** Call `x` is under way and has not been answered. */
  predicate Unanswered(s: State, x: nat) {
    x in s.calls && Active(s.calls[x].phase) && x in s.sent && s.sent[x] == []
  }

  /** `c` is about to run its deferred delete. */
  predicate Leaves(s: State, c: nat) { c in s.calls && s.calls[c].phase.Leaving? }

  /** Returning takes away the registration of exactly the other unanswered call for the same key. */
  lemma EvictionIff(es: seq<Event>, c: nat, x: nat)
    requires Unanswered(Exec(es), x) && x !in Exec(es).evicted
    ensures var s := Exec(es);
            x in Apply(s, Finish(c)).evicted <==> c != x && Leaves(s, c) && s.calls[c].key == s.calls[x].key
  {
    hide Exec;
    Safety(es);
    RegisteredIff(es, x);
  }

  /** And whatever it takes away was such a call, while `c` itself had been answered or evicted. */
  lemma EvictionNeedsOverlap(es: seq<Event>, c: nat, x: nat)
    requires x in Apply(Exec(es), Finish(c)).evicted && x !in Exec(es).evicted
    ensures var s := Exec(es);
            && Unanswered(s, x) && Leaves(s, c) && x != c && s.calls[x].key == s.calls[c].key
            && c in s.sent && (s.sent[c] != [] || c in s.evicted)
  {
    hide Exec;
    Safety(es);
  }

  /** A call returns while another one for its key is unanswered. */
  ghost predicate Overlaps(s: State, e: Event) {
    e.Finish? && Leaves(s, e.c) && exists x :: Unanswered(s, x) && x != e.c && s.calls[x].key == s.calls[e.c].key
  }

  lemma OverlapStep(es: seq<Event>, e: Event)
    requires Exec(es).evicted == {}
    ensures Apply(Exec(es), e).evicted == {} <==> !Overlaps(Exec(es), e)
  {
    hide Exec;
    var s := Exec(es);
    if Overlaps(s, e) {
      var x :| Unanswered(s, x) && x != e.c && s.calls[x].key == s.calls[e.c].key;
      EvictionIff(es, e.c, x);
    } else if Apply(s, e).evicted != {} {
      var x :| x in Apply(s, e).evicted;
      EvictionNeedsOverlap(es, e.c, x);
    }
  }

  lemma EvictedGrows(s: State, e: Event)
    ensures s.evicted <= Apply(s, e).evicted
  {
  }

  ghost predicate NoOverlap(es: seq<Event>) {
    forall i :: 0 <= i < |es| ==> !Overlaps(Exec(es[..i]), es[i])
  }

  /** No call ever loses its registration to another, exactly in the runs where no call returns
      while another one for its key is unanswered. */
  lemma {:induction false} NoEvictionIff(es: seq<Event>)
    ensures Exec(es).evicted == {} <==> NoOverlap(es)
  {
    hide Apply;
    hide Overlaps;
    if es != [] {
      var front, last := es[..|es| - 1], es[|es| - 1];
      NoEvictionIff(front);
      NoOverlapSnoc(front, last);
      assert front + [last] == es;
      EvictedGrows(Exec(front), last);
      if Exec(front).evicted == {} { OverlapStep(front, last); }
    }
  }

  lemma NoOverlapSnoc(es: seq<Event>, e: Event)
    ensures NoOverlap(es + [e]) <==> NoOverlap(es) && !Overlaps(Exec(es), e)
  {
    hide Exec;
    hide Overlaps;
    var r := es + [e];
    assert r[..|es|] == es && r[|es|] == e;
    assert forall i :: 0 <= i < |es| ==> r[..i] == es[..i] && r[i] == es[i];
    if NoOverlap(es) && !Overlaps(Exec(es), e) {
      forall i | 0 <= i < |r| ensures !Overlaps(Exec(r[..i]), r[i]) {
        if i < |es| { assert !Overlaps(Exec(es[..i]), es[i]); }
      }
    }
    if NoOverlap(r) {
      forall i | 0 <= i < |es| ensures !Overlaps(Exec(es[..i]), es[i]) { assert !Overlaps(Exec(r[..i]), r[i]); }
    }
  }

  /** What a caller can do about it: begin a call for a key only once the earlier ones have
      returned. */
  ghost predicate OneAtATime(es: seq<Event>) {
    forall i :: 0 <= i < |es| && es[i].Begin? ==> KeyIdle(Exec(es[..i]), es[i].key)
  }

  predicate KeyIdle(s: State, key: Bytes) {
    forall c :: c in s.calls && s.calls[c].key == key ==> !Active(s.calls[c].phase)
  }

  /** Call `c` for `key` is under way. */
  predicate Busy(s: State, c: nat, key: Bytes) { c in s.calls && s.calls[c].key == key && Active(s.calls[c].phase) }

  ghost predicate OnePerKey(s: State) {
    forall c, d, key :: Busy(s, c, key) && Busy(s, d, key) ==> c == d
  }

  lemma BusyBefore(s: State, e: Event, c: nat, key: Bytes)
    requires Busy(Apply(s, e), c, key)
    ensures Busy(s, c, key) || (e == Begin(c, key) && c !in s.calls)
  {
    hide EngineDecode;
  }

  lemma OnePerKeyStep(s: State, e: Event)
    requires OnePerKey(s) && (e.Begin? ==> KeyIdle(s, e.key))
    ensures OnePerKey(Apply(s, e))
  {
    hide Apply;
    var s' := Apply(s, e);
    forall c, d, key | Busy(s', c, key) && Busy(s', d, key) ensures c == d {
      BusyBefore(s, e, c, key);
      BusyBefore(s, e, d, key);
    }
  }

  lemma NoOverlapPerKey(s: State, e: Event)
    requires OnePerKey(s)
    ensures !Overlaps(s, e)
  {
    if e.Finish? && Leaves(s, e.c) {
      var key := s.calls[e.c].key;
      assert Busy(s, e.c, key);
      assert forall x :: Unanswered(s, x) && s.calls[x].key == key ==> Busy(s, x, key);
    }
  }

  lemma {:induction false} OneAtATimeKeepsRegistrations(es: seq<Event>)
    requires OneAtATime(es)
    ensures OnePerKey(Exec(es)) && Exec(es).evicted == {}
  {
    hide Apply;
    if es != [] {
      hide Overlaps;
      var front, last := es[..|es| - 1], es[|es| - 1];
      assert forall i :: 0 <= i < |front| ==> front[..i] == es[..i] && front[i] == es[i];
      OneAtATimeKeepsRegistrations(front);
      OnePerKeyStep(Exec(front), last);
      NoOverlapPerKey(Exec(front), last);
      OverlapStep(front, last);
    }
  }

  // ---- runs ----

  lemma ExecSnoc(es: seq<Event>, e: Event)
    ensures Exec(es + [e]) == Apply(Exec(es), e)
  {
    assert (es + [e])[..|es|] == es;
  }

  /** A call that finds its key free and its peer connected gets to wait. */
  lemma StartCall(es: seq<Event>, c: nat, key: Bytes, n: NodeID) returns (r: seq<Event>)
    requires c !in Exec(es).calls && key !in Exec(es).pending && n in Exec(es).peers
    ensures var s := Exec(es);
            Exec(r) == s.(pending := s.pending[key := c], calls := s.calls[c := Call(key, Waiting)],
                          sent := s.sent[c := []])
  {
    hide Exec;
    r := Then(es, Begin(c, key));
    r := Then(r, LookUp(c, n));
    r := Then(r, Send(c, true));
    assert Exec(r).calls == Exec(es).calls[c := Call(key, Waiting)];
  }

  /** A call that has been answered but has not picked up its answer. */
  lemma AnsweredCall(n: NodeID, key: Bytes) returns (es: seq<Event>)
    requires |key| == 32
    ensures var s := Exec(es);
            && s.calls == map[0 := Call(key, Waiting)] && s.pending == map[] && n in s.peers
            && 0 in s.sent && |s.sent[0]| == 1 && s.sent[0][0] == []
  {
    hide Exec;
    hide EngineDecode;
    DecodeBare(key);
    ExecEmpty();
    es := Then([], AddPeer(n));
    es := StartCall(es, 0, key, n);
    es := Then(es, Respond(n, [2] + key));
  }

  /** Eviction happens: a call can wait for an answer that can no longer reach it. */
  lemma EvictionHappens() returns (es: seq<Event>)
    ensures var s := Exec(es); InPhase(s, 1, Waiting) && 1 in s.sent && s.sent[1] == [] && s.calls[1].key !in s.pending
  {
    hide Exec;
    var n: NodeID := seq(32, _ => 0);
    var key: Bytes := seq(32, _ => 7);
    es := AnsweredCall(n, key);
    es := StartCall(es, 1, key, n);
    es := Then(es, Receive(0));
    assert Exec(es).calls[0] == Call(key, Leaving(Data([]))) && Exec(es).calls[1] == Call(key, Waiting);
    es := Then(es, Finish(0));
  }

  lemma DecodeBare(key: Bytes)
    requires |key| == 32
    ensures EngineDecode([2] + key) == (key, [])
  {
    assert ([2] + key)[1..33] == key;
  }

  /** An undisturbed call for a 32-byte digest returns what the peer answered, and leaves the table
      of registrations as it found it, after any run. */
  lemma UndisturbedCallReturnsData(es: seq<Event>, c: nat, n: NodeID, msg: Bytes) returns (r: seq<Event>)
    requires c !in Exec(es).calls && n in Exec(es).peers
    requires |msg| >= 33 && msg[0] == 2 && EngineDecode(msg).0 !in Exec(es).pending
    ensures InPhase(Exec(r), c, Done(Data(EngineDecode(msg).1)))
    ensures Exec(r).pending == Exec(es).pending
  {
    hide Exec;
    hide EngineDecode;
    PeersJoined(es, n);
    r := StartCall(es, c, EngineDecode(msg).0, n);
    r := PickUp(r, c, n, msg);
  }

  lemma PeersJoined(es: seq<Event>, n: NodeID)
    requires n in Exec(es).peers
    ensures n in Exec(es).joined
  {
    hide Exec;
    Safety(es);
  }

  /** A registered, waiting call is answered, takes the answer and returns it. */
  lemma PickUp(es: seq<Event>, c: nat, n: NodeID, msg: Bytes) returns (r: seq<Event>)
    requires n in Exec(es).joined && |msg| >= 33 && msg[0] == 2
    requires var s := Exec(es); var key := EngineDecode(msg).0;
             && c in s.calls && s.calls[c] == Call(key, Waiting) && c in s.sent && s.sent[c] == []
             && key in s.pending && s.pending[key] == c
    ensures InPhase(Exec(r), c, Done(Data(EngineDecode(msg).1)))
    ensures Exec(r).pending == Exec(es).pending - {EngineDecode(msg).0}
  {
    hide Exec;
    hide EngineDecode;
    r := Then(es, Respond(n, msg));
    r := Then(r, Receive(c));
    r := Then(r, Finish(c));
  }

  lemma ExecEmpty()
    ensures Exec([]) == INIT
  {
  }

  lemma Then(es: seq<Event>, e: Event) returns (r: seq<Event>)
    ensures r == es + [e] && Exec(r) == Apply(Exec(es), e)
  {
    r := es + [e];
    ExecSnoc(es, e);
  }

  // ---- what a returned call says ----

  /** The outcome of call `c` is fixed, and is `o`. */
  predicate Resulted(s: State, c: nat, o: Outcome) { InPhase(s, c, Leaving(o)) || InPhase(s, c, Done(o)) }

  predicate TimerFires(s: State, e: Event, c: nat) { e == Timeout(c) && InPhase(s, c, Waiting) }

  predicate BeginsBusy(s: State, e: Event, c: nat) { e.Begin? && e.c == c && c !in s.calls && e.key in s.pending }

  /** What has to happen for a call to return `o`: its lookup meets an absent peer, its send is
      refused, it picks up the value on its channel, its timer fires, or its key is registered
      when it begins. Quoting a digest of fewer than 12 bytes in the error panics. */
  predicate Ends(s: State, e: Event, c: nat, o: Outcome) {
    match o
    case NotConnected => e.LookUp? && e.c == c && InPhase(s, c, Registered) && e.n !in s.peers
    case SendFailed => e == Send(c, false) && InPhase(s, c, Connected)
    case Data(v) => e == Receive(c) && InPhase(s, c, Waiting) && c in s.sent && |s.sent[c]| >= 1 && s.sent[c][0] == v
    case TimedOut => TimerFires(s, e, c) && |s.calls[c].key| >= 12
    case InFlight => BeginsBusy(s, e, c) && |e.key| >= 12
    case Panicked => (TimerFires(s, e, c) && |s.calls[c].key| < 12) || (BeginsBusy(s, e, c) && |e.key| < 12)
  }

  ghost predicate Ended(es: seq<Event>, c: nat, o: Outcome) {
    exists i :: 0 <= i < |es| && Ends(Exec(es[..i]), es[i], c, o)
  }

  lemma EndsOther(s: State, e: Event, c: nat, o: Outcome)
    requires e.AddPeer? || e.RemovePeer? || e.Respond? || e.Count?
    ensures Resulted(Apply(s, e), c, o) <==> Resulted(s, c, o)
  {
    hide EngineDecode;
  }

  lemma EndsMove(s: State, e: Event, c: nat, o: Outcome)
    requires e.LookUp? || e.Send? || e.Receive? || e.Timeout?
    ensures Resulted(Apply(s, e), c, o) <==> Resulted(s, c, o) || Ends(s, e, c, o)
  {
  }

  lemma EndsBegin(s: State, e: Event, c: nat, o: Outcome)
    requires e.Begin? || e.Finish?
    ensures Resulted(Apply(s, e), c, o) <==> Resulted(s, c, o) || Ends(s, e, c, o)
  {
  }

  lemma EndsStep(s: State, e: Event, c: nat, o: Outcome)
    ensures Resulted(Apply(s, e), c, o) <==> Resulted(s, c, o) || Ends(s, e, c, o)
  {
    hide Apply;
    hide Resulted;
    if e.Begin? || e.Finish? {
      EndsBegin(s, e, c, o);
    } else if e.LookUp? || e.Send? || e.Receive? || e.Timeout? {
      EndsMove(s, e, c, o);
    } else {
      EndsOther(s, e, c, o);
    }
  }

  lemma EndedSnoc(es: seq<Event>, e: Event, c: nat, o: Outcome)
    ensures Ended(es + [e], c, o) <==> Ended(es, c, o) || Ends(Exec(es), e, c, o)
  {
    hide Exec;
    hide Ends;
    var r := es + [e];
    assert r[..|es|] == es && r[|es|] == e;
    if Ended(es, c, o) {
      var i :| 0 <= i < |es| && Ends(Exec(es[..i]), es[i], c, o);
      assert r[..i] == es[..i] && r[i] == es[i];
    }
    if Ended(r, c, o) {
      var i :| 0 <= i < |r| && Ends(Exec(r[..i]), r[i], c, o);
      if i < |es| { assert r[..i] == es[..i] && r[i] == es[i]; }
    }
  }

  lemma NothingEnded(c: nat, o: Outcome)
    ensures !Resulted(Exec([]), c, o) && !Ended([], c, o)
  {
  }

  /** After every run, a call returns `o` exactly if what `o` says happened to it. */
  lemma {:induction false} OutcomeIff(es: seq<Event>, c: nat, o: Outcome)
    ensures Resulted(Exec(es), c, o) <==> Ended(es, c, o)
  {
    hide Apply;
    hide Exec;
    hide Ends;
    hide Resulted;
    hide Ended;
    if es == [] {
      NothingEnded(c, o);
    } else {
      var front, last := es[..|es| - 1], es[|es| - 1];
      OutcomeIff(front, c, o);
      ExecSnoc(front, last);
      EndsStep(Exec(front), last, c, o);
      EndedSnoc(front, last, c, o);
      assert front + [last] == es;
    }
  }

  // Undisturbed, a call for a free key ends at once if its peer is not connected or the send is
  // refused, and with its timer if no answer comes, and leaves the registrations as they were.

  lemma CallMeetsBusyKey(es: seq<Event>, c: nat, key: Bytes)
    requires c !in Exec(es).calls && key in Exec(es).pending
    ensures var r := Exec(es + [Begin(c, key)]);
            InPhase(r, c, Done(if |key| < 12 then Panicked else InFlight)) && r.pending == Exec(es).pending
  {
    hide Exec;
    var r := Then(es, Begin(c, key));
  }

  /** Registering and looking the peer up. */
  lemma Begun(es: seq<Event>, c: nat, key: Bytes, n: NodeID) returns (r: seq<Event>)
    requires c !in Exec(es).calls && key !in Exec(es).pending
    ensures r == es + [Begin(c, key)] + [LookUp(c, n)]
    ensures var s := Exec(r); var next := if n in Exec(es).peers then Connected else Leaving(NotConnected);
            && c in s.calls && s.calls[c] == Call(key, next) && s.peers == Exec(es).peers
            && s.pending == Exec(es).pending[key := c]
  {
    hide Exec;
    r := Then(es, Begin(c, key));
    r := Then(r, LookUp(c, n));
  }

  /** Returning, with the call's own registration removed. */
  lemma Returns(es: seq<Event>, was: map<Bytes, nat>, c: nat, key: Bytes, o: Outcome)
    requires c in Exec(es).calls && Exec(es).calls[c] == Call(key, Leaving(o))
    requires key !in was && Exec(es).pending == was[key := c]
    ensures InPhase(Exec(es + [Finish(c)]), c, Done(o)) && Exec(es + [Finish(c)]).pending == was
  {
    hide Exec;
    var r := Then(es, Finish(c));
    assert was[key := c] - {key} == was;
  }

  lemma CallNotConnected(es: seq<Event>, c: nat, key: Bytes, n: NodeID)
    requires c !in Exec(es).calls && key !in Exec(es).pending && n !in Exec(es).peers
    ensures var r := Exec(es + [Begin(c, key)] + [LookUp(c, n)] + [Finish(c)]);
            InPhase(r, c, Done(NotConnected)) && r.pending == Exec(es).pending
  {
    hide Exec;
    hide Apply;
    var r := Begun(es, c, key, n);
    Returns(r, Exec(es).pending, c, key, NotConnected);
  }

  lemma CallRefused(es: seq<Event>, c: nat, key: Bytes, n: NodeID)
    requires c !in Exec(es).calls && key !in Exec(es).pending && n in Exec(es).peers
    ensures var r := Exec(es + [Begin(c, key)] + [LookUp(c, n)] + [Send(c, false)] + [Finish(c)]);
            InPhase(r, c, Done(SendFailed)) && r.pending == Exec(es).pending
  {
    hide Exec;
    var r := Begun(es, c, key, n);
    r := Then(r, Send(c, false));
    Returns(r, Exec(es).pending, c, key, SendFailed);
  }

  lemma CallTimesOut(es: seq<Event>, c: nat, key: Bytes, n: NodeID)
    requires c !in Exec(es).calls && key !in Exec(es).pending && n in Exec(es).peers
    ensures var r := Exec(es + [Begin(c, key)] + [LookUp(c, n)] + [Send(c, true)] + [Timeout(c)] + [Finish(c)]);
            InPhase(r, c, Done(if |key| < 12 then Panicked else TimedOut)) && r.pending == Exec(es).pending
  {
    hide Exec;
    var r := Begun(es, c, key, n);
    r := Then(r, Send(c, true));
    r := Then(r, Timeout(c));
    Returns(r, Exec(es).pending, c, key, if |key| < 12 then Panicked else TimedOut);
  }

  // ---- choosing a peer ----

  /** `SelectPeer`: an entry with the fewest pieces; `sort.Slice` may leave ties in any order. */
  method SelectPeer(peers: set<NodeID>, pieceCount: map<NodeID, nat>) returns (best: Option<NodeID>)
    requires peers <= pieceCount.Keys
    ensures best.None? <==> peers == {}
    ensures best.Some? ==> Least(pieceCount, best.value)
  {
    if |peers| == 0 { return None; }
    var first :| first in peers;
    assert first in pieceCount;
    var scored: seq<(NodeID, nat)> := [];
    var todo := pieceCount.Keys;
    while todo != {}
      invariant todo <= pieceCount.Keys
      invariant forall id :: id in pieceCount && id !in todo ==> (id, pieceCount[id]) in scored
      invariant forall i :: 0 <= i < |scored| ==> scored[i].0 in pieceCount && scored[i].1 == pieceCount[scored[i].0]
    {
      var id :| id in todo;
      todo := todo - {id};
      scored := scored + [(id, pieceCount[id])];
    }
    assert (first, pieceCount[first]) in scored;
    var lead := FewestPieces(scored);
    forall id | id in pieceCount ensures pieceCount[lead.0] <= pieceCount[id] {
      assert (id, pieceCount[id]) in scored;
      var i :| 0 <= i < |scored| && scored[i] == (id, pieceCount[id]);
    }
    best := Some(lead.0);
  }

  /** The head of the list once sorted by piece count. */
  method FewestPieces(scored: seq<(NodeID, nat)>) returns (lead: (NodeID, nat))
    requires scored != []
    ensures lead in scored && forall i :: 0 <= i < |scored| ==> lead.1 <= scored[i].1
  {
    lead := scored[0];
    for k := 1 to |scored|
      invariant lead in scored && forall i :: 0 <= i < k ==> lead.1 <= scored[i].1
    {
      if scored[k].1 < lead.1 { lead := scored[k]; }
    }
  }

  /** What `SelectPeer` may return. */
  predicate Least(pieceCount: map<NodeID, nat>, best: NodeID) {
    best in pieceCount && forall id :: id in pieceCount ==> pieceCount[best] <= pieceCount[id]
  }

  /** A list of all entries, by count. */
  ghost predicate Ranking(pieceCount: map<NodeID, nat>, scored: seq<(NodeID, nat)>) {
    && NoDups(scored)
    && (forall id :: id in pieceCount ==> (id, pieceCount[id]) in scored)
    && (forall i :: 0 <= i < |scored| ==> scored[i].0 in pieceCount && scored[i].1 == pieceCount[scored[i].0])
    && (forall i, j :: 0 <= i < j < |scored| ==> scored[i].1 <= scored[j].1)
  }

  lemma {:induction false} SomeLeast(pieceCount: map<NodeID, nat>) returns (best: NodeID)
    requires pieceCount != map[]
    ensures Least(pieceCount, best)
  {
    var id :| id in pieceCount;
    var rest := pieceCount - {id};
    best := id;
    if rest != map[] {
      var b := SomeLeast(rest);
      if rest[b] < pieceCount[id] { best := b; }
      assert forall x :: x in pieceCount ==> x == id || x in rest;
    } else {
      assert forall x :: x in pieceCount && x != id ==> x in rest;
    }
  }

  /** Every least entry heads some sorted list, so ties can go to any of them. */
  lemma {:induction false} TiesGoAnyWay(pieceCount: map<NodeID, nat>, best: NodeID) returns (scored: seq<(NodeID, nat)>)
    requires Least(pieceCount, best)
    ensures Ranking(pieceCount, scored) && scored != [] && scored[0].0 == best
  {
    var rest := pieceCount - {best};
    var tail := [];
    if rest != map[] {
      var next := SomeLeast(rest);
      tail := TiesGoAnyWay(rest, next);
    }
    scored := [(best, pieceCount[best])] + tail;
    assert forall id :: id in pieceCount ==> id == best || id in rest;
  }

  /** The chosen peer is connected however ties go, exactly when every entry without a connection
      is beaten by a connected peer. */
  lemma SelectionConnectedIff(peers: set<NodeID>, pieceCount: map<NodeID, nat>)
    requires peers <= pieceCount.Keys
    ensures (forall best :: Least(pieceCount, best) ==> best in peers) <==>
            (forall a :: a in pieceCount && a !in peers ==> exists b :: b in peers && pieceCount[b] < pieceCount[a])
  {
    if forall best :: Least(pieceCount, best) ==> best in peers {
      forall a | a in pieceCount && a !in peers ensures exists b :: b in peers && pieceCount[b] < pieceCount[a] {
        var b := SomeLeast(pieceCount);
        assert b in peers && pieceCount[b] <= pieceCount[a];
        assert !Least(pieceCount, a);
      }
    }
  }

  /** A response of a removed peer is counted. */
  predicate LateCount(s: State, e: Event) { e.Count? && e.n in s.owed && e.n !in s.peers }

  predicate Agrees(s: State) { s.pieceCount.Keys == s.peers }

  lemma AgreesStep(s: State, e: Event)
    requires Agrees(s)
    ensures Agrees(Apply(s, e)) <==> !LateCount(s, e)
  {
    hide EngineDecode;
  }

  /** The counted peers are the connected ones all along a run, so that every choice is a
      connected peer, exactly when no response is counted after its peer was removed. */
  lemma {:induction false} CountsFollowPeersIff(es: seq<Event>)
    ensures (forall i :: 0 <= i <= |es| ==> Agrees(Exec(es[..i]))) <==>
            (forall i :: 0 <= i < |es| ==> !LateCount(Exec(es[..i]), es[i]))
  {
    hide Exec;
    hide Apply;
    hide LateCount;
    hide Agrees;
    if es == [] {
      ExecEmpty();
      assert es[..0] == [];
      InitAgrees();
    } else {
      var front, last := es[..|es| - 1], es[|es| - 1];
      CountsFollowPeersIff(front);
      ExecSnoc(front, last);
      assert front + [last] == es == es[..|es|];
      assert forall i :: 0 <= i <= |front| ==> front[..i] == es[..i];
      if Agrees(Exec(front)) { AgreesStep(Exec(front), last); }
    }
  }

  lemma InitAgrees()
    ensures Agrees(INIT)
  {
  }

  /** The peer with the fewest pieces need not be connected: a response that is counted late
      brings a removed peer back into the counts. */
  lemma RemovedPeerReturns() returns (es: seq<Event>)
    ensures var s := Exec(es);
            exists a, b ::
              && a in s.pieceCount && a !in s.peers && b in s.peers && b in s.pieceCount
              && s.pieceCount[a] <= s.pieceCount[b]
  {
    hide Exec;
    var a: NodeID := seq(32, _ => 0);
    var b: NodeID := seq(32, _ => 1);
    assert a[0] != b[0];
    var msg: Bytes := [2] + seq(32, _ => 7);
    assert Exec([]) == INIT by { ExecEmpty(); }
    es := [];
    es := Then(es, AddPeer(a));
    es := Then(es, AddPeer(b));
    es := Then(es, Respond(a, msg));
    es := Then(es, Respond(b, msg));
    es := Then(es, Count(b));
    es := Then(es, RemovePeer(a));
    assert b in Exec(es).peers && Exec(es).pieceCount[b] == 1 && a !in Exec(es).peers && a in Exec(es).owed;
    es := Then(es, Count(a));
    var s := Exec(es);
    assert a in s.pieceCount && a !in s.peers && b in s.peers && b in s.pieceCount &&
        s.pieceCount[a] <= s.pieceCount[b];
  }
}
