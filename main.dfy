/** The dispatcher (main.go): the server that owns the key-value store and the
    peer registry and handles one event at a time. */
module Server {
  import opened Proto
  import opened Peers

  const DefaultListenAddress: string := ":5001"

  datatype Config = Config(listenAddress: string)

  /** The store: byte-string keys to byte-string values. */
  type Store = map<Bytes, Bytes>

  /** A reply written on a connection: a string through the codec's string
      writer, or raw bytes sent directly on the connection. */
  datatype Reply = Str(s: string) | Raw(bytes: Bytes)

  /** One reply written to one peer's connection. */
  datatype Write = Write(to: Peer, reply: Reply)

  /** The error `handleMessage` returns: nil, or an error with its text. */
  datatype Status = Nil | Error(msg: string)

  const KeyNotFound: string := "key not found"

  /** What handling one message does: the new store, the replies written (in
      order) and the returned error. */
  datatype Handled = Handled(kv: Store, writes: seq<Write>, status: Status)

  /** handleMessage, as a function of the store and the message; `enc` is the
      codec's string-element writer used by the HELLO map reply. */
  function Handle(kv: Store, msg: Message, enc: string -> Bytes): Handled
  {
    match msg.cmd
    case Client(_) => Handled(kv, [Write(msg.peer, Str("OK"))], Nil)
    case Set(k, v) => Handled(kv[k := v], [Write(msg.peer, Str("OK"))], Nil)
    case Get(k) =>
      if k !in kv then Handled(kv, [], Error(KeyNotFound))
      else Handled(kv, [Write(msg.peer, Str(BytesToString(kv[k])))], Nil)
    case Hello(_) => Handled(kv, [Write(msg.peer, Raw(HelloReply(enc)))], Nil)
    case None => Handled(kv, [], Nil)
  }

  /** The dispatcher's whole state: the registry, the store and every reply
      written so far. */
  datatype State = State(peers: set<Peer>, kv: Store, sent: seq<Write>)

  /** One iteration of the loop for an event other than quit (quit changes
      nothing; `Run` stops at it). */
  function Step(s: State, e: Event, enc: string -> Bytes): State
  {
    match e
    case Msg(m) =>
      var h := Handle(s.kv, m, enc);
      State(s.peers, h.kv, s.sent + h.writes)
    case AddPeer(p) => s.(peers := s.peers + {p})
    case DelPeer(p) => s.(peers := s.peers - {p})
    case Quit => s
  }

  /** The state after the loop has handled `events`, and whether it returned
      on a quit signal. */
  datatype Outcome = Outcome(state: State, quit: bool)

  /** The loop over a finite list of events: handle each in turn, return at quit. */
  function Run(s: State, events: seq<Event>, enc: string -> Bytes): Outcome
    decreases |events|
  {
    if events == [] then Outcome(s, false)
    else if events[0].Quit? then Outcome(s, true)
    else Run(Step(s, events[0], enc), events[1..], enc)
  }

  // ---------------------------------------------------------------------
  // The server object

  class Server {
    var config: Config
    var peers: set<Peer>
    var kv: Store
    /** Everything written on peer connections so far, in order. */
    var sent: seq<Write>

    function Snapshot(): State
      reads this
    {
      State(peers, kv, sent)
    }

    /** NewServer: the default address when none is given, an empty registry
        and an empty store. */
    constructor (cfg: Config)
      ensures config.listenAddress ==
        if |cfg.listenAddress| == 0 then DefaultListenAddress else cfg.listenAddress
      ensures peers == {} && kv == map[] && sent == []
    {
      var c := cfg;
      if |c.listenAddress| == 0 {
        c := c.(listenAddress := DefaultListenAddress);
      }
      config := c;
      peers := {};
      kv := map[];
      sent := [];
    }

    /** handleMessage: update the store and write the replies for one message. */
    method HandleMessage(msg: Message, enc: string -> Bytes) returns (err: Status)
      modifies this
      ensures config == old(config) && peers == old(peers)
      ensures var h := Handle(old(kv), msg, enc);
        kv == h.kv && sent == old(sent) + h.writes && err == h.status
    {
      match msg.cmd {
        case Client(_) =>
          sent := sent + [Write(msg.peer, Str("OK"))];
        case Set(k, v) =>
          kv := kv[k := v];
          sent := sent + [Write(msg.peer, Str("OK"))];
        case Get(k) =>
          if k !in kv {
            return Error(KeyNotFound);
          }
          sent := sent + [Write(msg.peer, Str(BytesToString(kv[k])))];
        case Hello(_) =>
          var bytes, order := RespWriteMap(HelloMap, enc);
          HelloMapEncoding(enc, bytes, order);
          sent := sent + [Write(msg.peer, Raw(bytes))];
        case None =>
      }
      return Nil;
    }

    /** loop: handle the events in arrival order until quit. The returned error
        of a message is only logged, so it does not stop the loop. */
    method Loop(events: seq<Event>, enc: string -> Bytes) returns (quit: bool)
      modifies this
      ensures config == old(config)
      ensures Run(old(Snapshot()), events, enc) == Outcome(Snapshot(), quit)
    {
      var i := 0;
      while i < |events|
        invariant 0 <= i <= |events|
        invariant config == old(config)
        invariant Run(old(Snapshot()), events, enc) == Run(Snapshot(), events[i..], enc)
        decreases |events| - i
      {
        assert events[i..][1..] == events[i + 1..];
        match events[i] {
          case Msg(m) =>
            var _ := HandleMessage(m, enc);
          case Quit =>
            return true;
          case AddPeer(p) =>
            peers := peers + {p};
          case DelPeer(p) =>
            peers := peers - {p};
        }
        i := i + 1;
      }
      return false;
    }
  }

  // ---------------------------------------------------------------------
  // Per-command semantics

  /** SET stores the value under the key, leaves every other key as it was and
      writes exactly one "OK" to the sender. */
  lemma HandleSet(kv: Store, k: Bytes, v: Bytes, p: Peer, enc: string -> Bytes)
    ensures var h := Handle(kv, Message(Set(k, v), p), enc);
      && h.kv.Keys == kv.Keys + {k} && h.kv[k] == v
      && (forall k' :: k' in kv && k' != k ==> h.kv[k'] == kv[k'])
      && h.writes == [Write(p, Str("OK"))] && h.status == Nil
  {
  }

  /** Repeating a SET leaves the store as a single SET does. */
  lemma SetIdempotent(kv: Store, k: Bytes, v: Bytes, p: Peer, q: Peer, enc: string -> Bytes)
    ensures var once := Handle(kv, Message(Set(k, v), p), enc).kv;
      Handle(once, Message(Set(k, v), q), enc).kv == once
  {
  }

  /** GET of a present key writes exactly its value to the sender. */
  lemma HandleGetPresent(kv: Store, k: Bytes, p: Peer, enc: string -> Bytes)
    requires k in kv
    ensures var h := Handle(kv, Message(Get(k), p), enc);
      h.kv == kv && h.status == Nil && h.writes == [Write(p, Str(BytesToString(kv[k])))]
  {
  }

  /** GET of an absent key fails with "key not found", writes nothing and leaves
      the store alone; the loop then goes on with its state unchanged. */
  lemma HandleGetAbsent(s: State, k: Bytes, p: Peer, enc: string -> Bytes)
    requires k !in s.kv
    ensures Handle(s.kv, Message(Get(k), p), enc) == Handled(s.kv, [], Error(KeyNotFound))
    ensures Step(s, Msg(Message(Get(k), p)), enc) == s
  {
  }

  /** CLIENT answers "OK" whatever its argument and leaves the store alone. */
  lemma HandleClient(kv: Store, value: string, p: Peer, enc: string -> Bytes)
    ensures Handle(kv, Message(Client(value), p), enc) == Handled(kv, [Write(p, Str("OK"))], Nil)
  {
  }

  /** HELLO answers the encoding of {"server": "redis"} whatever the store holds,
      and leaves the store alone. */
  lemma HandleHello(kv: Store, other: Store, value: string, p: Peer, enc: string -> Bytes)
    ensures var h := Handle(kv, Message(Hello(value), p), enc);
      && h.kv == kv && h.status == Nil
      && h.writes == [Write(p, Raw(StringToBytes("%1\r\n") + enc("server") + enc("redis")))]
      && h.writes == Handle(other, Message(Hello(value), p), enc).writes
  {
  }

  /** A nil (unrecognised) command matches no case: no reply, nil error, and the
      state is unchanged. */
  lemma HandleNone(s: State, p: Peer, enc: string -> Bytes)
    ensures Handle(s.kv, Message(None, p), enc) == Handled(s.kv, [], Nil)
    ensures Step(s, Msg(Message(None, p)), enc) == s
  {
  }

  /** Registration inserts the peer, deregistration removes it (a no-op for an
      absent peer, exactly one entry fewer for a present one); neither touches
      the store or writes anything. */
  lemma Registry(s: State, p: Peer, enc: string -> Bytes)
    ensures Step(s, AddPeer(p), enc) == State(s.peers + {p}, s.kv, s.sent)
    ensures Step(s, DelPeer(p), enc) == State(s.peers - {p}, s.kv, s.sent)
    ensures p !in s.peers ==> Step(s, DelPeer(p), enc) == s
    ensures p in s.peers ==> |Step(s, DelPeer(p), enc).peers| == |s.peers| - 1
  {
  }

  // ---------------------------------------------------------------------
  // Properties of the loop

  /** The loop returns at the quit signal without touching the state. */
  lemma QuitStops(s: State, rest: seq<Event>, enc: string -> Bytes)
    ensures Run(s, [Quit] + rest, enc) == Outcome(s, true)
  {
  }

  /** Running two lists of events one after the other is running their
      concatenation. */
  lemma {:induction false} RunAppend(s: State, a: seq<Event>, b: seq<Event>, enc: string -> Bytes)
    ensures Run(s, a + b, enc) ==
      var r := Run(s, a, enc); if r.quit then r else Run(r.state, b, enc)
    decreases |a|
  {
    if a == [] {
      assert a + b == b;
    } else {
      assert (a + b)[0] == a[0];
      assert (a + b)[1..] == a[1..] + b;
      if !a[0].Quit? {
        RunAppend(Step(s, a[0], enc), a[1..], b, enc);
      }
    }
  }

  /** The replies written so far are never taken back: running only appends. */
  lemma {:induction false} RunExtendsSent(s: State, events: seq<Event>, enc: string -> Bytes)
    ensures |s.sent| <= |Run(s, events, enc).state.sent|
    ensures Run(s, events, enc).state.sent[..|s.sent|] == s.sent
    decreases |events|
  {
    if events != [] && !events[0].Quit? {
      var t := Step(s, events[0], enc);
      RunExtendsSent(t, events[1..], enc);
      assert t.sent[..|s.sent|] == s.sent;
    }
  }

  /** True when `e` is a message that stores under key `k`. */
  predicate SetsKey(e: Event, k: Bytes) {
    e.Msg? && e.msg.cmd.Set? && e.msg.cmd.key == k
  }

  /** Events that do not SET a key leave that key as it was. */
  lemma {:induction false} KeyUntouched(s: State, events: seq<Event>, k: Bytes, enc: string -> Bytes)
    requires forall i :: 0 <= i < |events| ==> !SetsKey(events[i], k)
    ensures var t := Run(s, events, enc).state;
      (k in t.kv <==> k in s.kv) && (k in s.kv ==> t.kv[k] == s.kv[k])
    decreases |events|
  {
    if events != [] && !events[0].Quit? {
      KeyUntouched(Step(s, events[0], enc), events[1..], k, enc);
    }
  }

  /** SET(k, v) followed, after any events that do not SET k, by GET(k) from any
      peer: that GET is answered with exactly v (so a later SET(k, v') makes the
      next GET answer v'). */
  lemma SetThenGet(s: State, k: Bytes, v: Bytes, p: Peer, q: Peer, mid: seq<Event>, enc: string -> Bytes)
    requires forall i :: 0 <= i < |mid| ==> !SetsKey(mid[i], k) && !mid[i].Quit?
    ensures var r := Run(s, [Msg(Message(Set(k, v), p))] + mid + [Msg(Message(Get(k), q))], enc);
      && !r.quit && |r.state.sent| > 0
      && r.state.sent[|r.state.sent| - 1] == Write(q, Str(BytesToString(v)))
      && k in r.state.kv && r.state.kv[k] == v
  {
    var set1 := [Msg(Message(Set(k, v), p))];
    var get1 := [Msg(Message(Get(k), q))];
    var s1 := Step(s, set1[0], enc);
    assert Run(s, set1, enc) == Outcome(s1, false);
    RunAppend(s, set1, mid, enc);
    var r2 := Run(s1, mid, enc);
    NoQuitRuns(s1, mid, enc);
    KeyUntouched(s1, mid, k, enc);
    RunAppend(s, set1 + mid, get1, enc);
    assert Run(r2.state, get1, enc) == Outcome(Step(r2.state, get1[0], enc), false);
  }

  /** Without a quit signal the loop handles every event. */
  lemma {:induction false} NoQuitRuns(s: State, events: seq<Event>, enc: string -> Bytes)
    requires forall i :: 0 <= i < |events| ==> !events[i].Quit?
    ensures !Run(s, events, enc).quit
    decreases |events|
  {
    if events != [] {
      NoQuitRuns(Step(s, events[0], enc), events[1..], enc);
    }
  }

  /** Messages never change the registry: only registration events do. */
  lemma {:induction false} MessagesKeepRegistry(s: State, events: seq<Event>, enc: string -> Bytes)
    requires forall i :: 0 <= i < |events| ==> events[i].Msg?
    ensures Run(s, events, enc).state.peers == s.peers
    decreases |events|
  {
    if events != [] {
      MessagesKeepRegistry(Step(s, events[0], enc), events[1..], enc);
    }
  }

  /** A whole connection handled on its own: the registration, then whatever
      its read loop sends until end-of-stream. The peer ends up out of the
      registry and everything else in the registry is as it was. */
  lemma PeerSession(s: State, p: Peer, input: seq<Value>, enc: string -> Bytes)
    requires !Read(p, input).panicked
    ensures Run(s, [AddPeer(p)] + Read(p, input).events, enc).state.peers == s.peers - {p}
  {
    ReadShape(p, input);
    var evs := Read(p, input).events;
    var n := |evs|;
    var msgs := evs[..n - 1];
    assert evs == msgs + [DelPeer(p)];
    var s1 := Step(s, AddPeer(p), enc);
    RunAppend(s, [AddPeer(p)], evs, enc);
    assert Run(s, [AddPeer(p)], enc) == Outcome(s1, false);
    RunAppend(s1, msgs, [DelPeer(p)], enc);
    MessagesKeepRegistry(s1, msgs, enc);
    NoQuitRuns(s1, msgs, enc);
    var s2 := Run(s1, msgs, enc).state;
    assert Run(s2, [DelPeer(p)], enc) == Outcome(Step(s2, DelPeer(p), enc), false);
  }

  /** The events one connection sends for the requests SET foo bar, GET foo,
      GET baz followed by end-of-stream. */
  lemma ExampleEvents(p: Peer, foo: Bytes, bar: Bytes, baz: Bytes)
    ensures Read(p, [Request(Set(foo, bar)), Request(Get(foo)), Request(Get(baz))]) ==
      ReadResult([Msg(Message(Set(foo, bar), p)), Msg(Message(Get(foo), p)),
                  Msg(Message(Get(baz), p)), DelPeer(p)], false)
  {
    var input := [Request(Set(foo, bar)), Request(Get(foo)), Request(Get(baz))];
    DecodeRequest(Set(foo, bar));
    DecodeRequest(Get(foo));
    DecodeRequest(Get(baz));
    var i1 := input[1..];
    var i2 := i1[1..];
    assert i2[1..] == [];
    var del := [DelPeer(p)];
    var m1, m2, m3 := Msg(Message(Set(foo, bar), p)), Msg(Message(Get(foo), p)), Msg(Message(Get(baz), p));
    assert Read(p, i2[1..]) == ReadResult(del, false);
    assert Read(p, i2) == ReadResult([m3] + del, false);
    assert Read(p, i1) == ReadResult([m2] + ([m3] + del), false);
    assert Read(p, input) == ReadResult([m1] + ([m2] + ([m3] + del)), false);
  }

  /** A worked session on one connection: SET foo bar, GET foo, GET baz (never
      set), then end-of-stream. The client is answered "OK" and then bar; GET
      baz fails without a reply and the session goes on; the store keeps foo,
      and the peer leaves the registry. */
  lemma ExampleSession(p: Peer, foo: Bytes, bar: Bytes, baz: Bytes, enc: string -> Bytes)
    requires foo != baz
    ensures var input := [Request(Set(foo, bar)), Request(Get(foo)), Request(Get(baz))];
      var r := Run(State({}, map[], []), [AddPeer(p)] + Read(p, input).events, enc);
      && !r.quit
      && r.state.sent == [Write(p, Str("OK")), Write(p, Str(BytesToString(bar)))]
      && r.state.kv == map[foo := bar]
      && r.state.peers == {}
  {
    ExampleEvents(p, foo, bar, baz);
    var del := [DelPeer(p)];
    var m1, m2, m3 := Msg(Message(Set(foo, bar), p)), Msg(Message(Get(foo), p)), Msg(Message(Get(baz), p));
    var evs := [m1, m2, m3] + del;
    var s0 := State({}, map[], []);
    var s1 := Step(s0, AddPeer(p), enc);
    var s2 := Step(s1, m1, enc);
    var s3 := Step(s2, m2, enc);
    var s4 := Step(s3, m3, enc);
    var s5 := Step(s4, DelPeer(p), enc);
    assert s5 == State({}, map[foo := bar], [Write(p, Str("OK")), Write(p, Str(BytesToString(bar)))]);
    assert evs[1..] == [m2, m3] + del;
    assert evs[1..][1..] == [m3] + del;
    assert evs[1..][1..][1..] == del;
    assert Run(s4, del, enc) == Outcome(s5, false);
    assert Run(s3, [m3] + del, enc) == Outcome(s5, false);
    assert Run(s2, [m2, m3] + del, enc) == Outcome(s5, false);
    assert Run(s1, evs, enc) == Outcome(s5, false);
    assert evs == Read(p, [Request(Set(foo, bar)), Request(Get(foo)), Request(Get(baz))]).events;
    assert ([AddPeer(p)] + evs)[1..] == evs;
    assert Run(s0, [AddPeer(p)] + evs, enc) == Outcome(s5, false);
  }
}
