# keyvaluedb: a Dafny model of the request path

keyvaluedb is a small Redis-like key-value server written in Go. Each client
connection gets a connection handler (the `Peer` read loop). It decodes
protocol values into commands and sends them over a channel to one dispatcher
loop, which owns the store and the registry of connected peers. This project
models three sequential pieces of that server:

- `proto.dfy` (module `Proto`, from proto.go): the closed command type, the
  four command names, and `respWriteMap`. That function writes a RESP3 map:
  the header `%<count>\r\n`, then a key element and a value element per entry.
  Entries come in Go map-iteration order, which is unspecified. The codec's
  string-element writer is an abstract parameter `enc: string -> Bytes`.
- `peer.dfy` (module `Peers`, from peer.go): the `Peer` class and its
  `ReadLoop`. The switch on the request head is the pure function `Decode`. A
  short request indexes past the end of the array in Go and panics. The model
  makes this an explicit `IndexPanic` result, after which the loop stops and
  sends nothing more. At end-of-stream the loop sends exactly one
  deregistration.
- `main.dfy` (module `Server`, from main.go): the `Server` class (NewServer,
  handleMessage, loop), with the store as a `map` field and the registry as a
  `set` field. The loop handles a finite list of events: messages,
  registrations, deregistrations and quit. Each method is proved against a
  specification function (`Handle`, `Step`, `Run`), and the lemmas state the
  per-command semantics and the properties of the loop.

Other modelling choices:

- A Go string is a Dafny `string` whose characters are bytes (codes below 256).
- `string(val)` is `BytesToString`, which is proved injective.
- Peers are class objects, so object identity stands for Go pointer identity.
- Replies are `Str(s)` for the codec's `WriteString(s)`, or `Raw(bytes)` for
  bytes sent directly with `Peer.Send`. The server appends each reply to its
  `sent` log.

Three behaviours of the code are easy to miss:

- An unrecognised command is not dropped at the connection. The handler still
  sends a message with a nil command, and the dispatcher ignores it.
- `set`, `get` and `client` with too few elements are not rejected. Go indexes
  past the end of the array and panics.
- A GET of an absent key sends nothing to the client. The error is returned to
  the loop, which only logs it.

## Model

| member | source | states |
|---|---|---|
| `Proto.CommandNamesDistinct` | proto.go:13-18 | the four command names "set", "get", "hello", "client" are pairwise distinct |
| `Proto.BytesToStringInjective` | main.go:70 | converting the stored value with `string(val)` loses nothing: equal strings come from equal byte sequences |
| `Proto.Decimal` | proto.go:38 | the `%d` rendering of the count is a non-empty string of digits; it starts with '0' only for 0, which renders as exactly "0" |
| `Proto.DecimalRoundTrip` | proto.go:38 | the rendered count reads back as the count |
| `Proto.MapHeaderText` | proto.go:38 | the header is '%', then the canonical decimal rendering of the count (reading back as the count, with no leading zero, so 0 gives exactly "%0\r\n"), then CR LF, all bytes |
| `Proto.Elements` | proto.go:40-43 | after the header come 2·n elements; element 2i is the i-th visited key and element 2i+1 is its value |
| `Proto.RespWriteMap` | proto.go:36-45 | the output begins with the header for the size of m, followed by the encodings of each key and then its value, for an order that lists every key of m exactly once |
| `Proto.MapReplyEntries` | proto.go:40-43 | whatever the iteration order, there are exactly twice as many elements as m has entries, and each entry of m appears once as its key immediately followed by its value |
| `Proto.HelloMapEncoding` | main.go:74-78 | for the one-entry map {"server": "redis"} the output is "%1\r\n" + enc("server") + enc("redis") in every iteration order |
| `Peers.Decode` | peer.go:45-70 | only a non-array value is ignored; a panic needs an array of fewer than three elements; a non-nil command needs an array whose head is one of the four names (the Decode lemmas below state each case exactly) |
| `Peers.DecodeNonArray` | peer.go:47 | a top-level value that is not an array yields no command |
| `Peers.DecodeEmptyArray` | peer.go:48 | an empty array panics on indexing element 0 |
| `Peers.DecodeSet` | peer.go:59-63 | "set" gives Set(element 1 bytes, element 2 bytes) with at least 3 elements, and panics otherwise |
| `Peers.DecodeGet` | peer.go:55-58 | "get" gives Get(element 1 bytes) with at least 2 elements, and panics otherwise |
| `Peers.DecodeClient` | peer.go:51-54 | "client" gives Client(element 1 as text) with at least 2 elements, and panics otherwise |
| `Peers.DecodeHello` | peer.go:64-67 | "hello" gives Hello with an empty value, whatever follows the head |
| `Peers.DecodeUnrecognised` | peer.go:50-70 | a non-empty array gives a nil command exactly when its head is none of the four names (exact, case-sensitive match) |
| `Peers.DecodeRequest` | peer.go:47-70 | decoding a well-formed request array gives back the command it carries |
| `Peers.ReadShape` | peer.go:30-79 | every event the loop sends carries this peer; all are messages except one final deregistration, sent exactly when the loop reaches end-of-stream without panicking |
| `Peers.ReadWithoutPanic` | peer.go:33-78 | with no short request, the loop sends one message per array value in input order, then exactly one deregistration, and returns nil |
| `Peers.ReadWithPanic` | peer.go:48-63 | at the first short request the loop has sent the messages of the earlier arrays and sends nothing more, in particular no deregistration |
| `Peers.Peer.constructor` | peer.go:22-28 | NewPeer keeps the connection it is given |
| `Peers.Peer.ReadLoop` | peer.go:30-79 | the events sent and the panic flag are those of `Read` on the value stream |
| `Server.Server.constructor` | main.go:34-47 | NewServer uses ":5001" when the listen address is empty and keeps it otherwise; the registry and the store start empty |
| `Server.Server.HandleMessage` | main.go:49-85 | the new store, the replies appended to the connection log and the returned error are those of `Handle`; the registry is untouched |
| `Server.Server.Loop` | main.go:87-103 | handles events in order until quit; the new state and whether it returned on quit are those of `Run` |
| `Server.HandleSet` | main.go:55-62 | SET maps k to v, leaves other keys alone, and writes exactly one "OK" to the sender |
| `Server.SetIdempotent` | main.go:55-58 | repeating a SET leaves the store as one SET does |
| `Server.HandleGetPresent` | main.go:63-72 | GET of a present key writes exactly its value to the sender and changes nothing |
| `Server.HandleGetAbsent` | main.go:64-68 | GET of an absent key returns "key not found", writes nothing, and the loop's state stays unchanged |
| `Server.HandleClient` | main.go:51-54 | CLIENT replies "OK" whatever its value and leaves the store unchanged |
| `Server.HandleHello` | main.go:74-82 | HELLO replies with the encoding of {"server": "redis"} whatever the store holds, and leaves the store unchanged |
| `Server.HandleNone` | main.go:50 | a nil command matches no case: no reply, nil error, state unchanged |
| `Server.Registry` | main.go:96-100 | registration inserts the peer and deregistration removes it (a no-op when absent, exactly one entry fewer when present); neither touches the store or the replies |
| `Server.QuitStops` | main.go:94-95 | on quit the loop returns with the state unchanged and handles nothing after it |
| `Server.RunAppend` | main.go:88-102 | handling two lists of events in turn is handling their concatenation |
| `Server.RunExtendsSent` | main.go:88-102 | the loop only ever appends to what has been written to connections |
| `Server.KeyUntouched` | main.go:55-72 | events that do not SET key k leave k's presence and value unchanged |
| `Server.NoQuitRuns` | main.go:88-102 | without a quit signal the loop handles every event |
| `Server.MessagesKeepRegistry` | main.go:90-93 | messages never change the peer registry |
| `Server.SetThenGet` | main.go:55-72 | after SET(k, v), any events that do not SET k, then GET(k) from any peer, that GET is answered with exactly v |
| `Server.PeerSession` | peer.go:36-39 | a registration followed by everything a connection's read loop sends up to end-of-stream leaves that peer out of the registry and every other peer as it was |
| `Server.ExampleEvents` | peer.go:45-75 | the requests SET foo bar, GET foo, GET baz and end-of-stream become three messages and one deregistration |
| `Server.ExampleSession` | main.go:49-100 | that session answers "OK" and then bar, fails GET baz with no reply, keeps foo in the store and ends with an empty registry |

## Left out

- Listener and accept plumbing (`Start`, `acceptLoop`, `handleConn`, `main`, main.go:105-151) is socket I/O. `PeerSession` states the effect of `handleConn`'s registration followed by a read loop.
- Goroutines, unbuffered channels and `select` fairness are left out. The loop takes an already interleaved finite event list, and the read loop takes a finite list of values that ends at end-of-stream.
- The `tidwall/resp` codec is external. Values are an abstract `Value` with `str` and `bytes` views. `WriteString` replies are the abstract `Str(s)`, and the map encoder's element writer is the parameter `enc`.
- The `KV` store type is not part of this model. It is a Dafny `map`, and `Set` never fails, so the error return at main.go:56-58 is not modelled.
- Write failures and byte counts are left out: `conn.Write` in `Peer.Send` (peer.go:18-20), and any error from `WriteString` or `Send` in handleMessage. Every reply is taken to be written, so the "peer send error" result never occurs.
- Errors from `rw.WriteString` inside respWriteMap are ignored by the source and are not modelled either.
- `log.Fatal` on a non-end-of-stream read error (peer.go:41-43) ends the process. It is left out: the input to the read loop contains only values that decoded successfully.
- A Go index panic ends the whole process. The model only stops that connection's read loop and reports `panicked`; what happens to the other goroutines is not modelled.
- Logging (`slog`, `log`, `fmt.Println`) is left out. A logged error has no other effect.
- The channels that NewServer creates and the `ln` listener field are not modelled, because the event list replaces them.
