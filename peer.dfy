/** The connection handler (peer.go): decoding one protocol value into a
    command, and the read loop that turns a connection's stream of values
    into events for the dispatcher. */
module Peers {
  import opened Proto

  /** An opaque handle standing for a transport connection. */
  type Conn = nat

  /** One protocol element inside a request array, seen through the codec's
      two views of it: as text and as raw bytes. */
  datatype Elem = Elem(str: string, bytes: Bytes)

  /** One value read from the connection: an array of elements, or any other
      kind of value. */
  datatype Value = Array(elems: seq<Elem>) | Other

  /** A command with the connection to answer on (main.go's `Message`). */
  datatype Message = Message(cmd: Command, peer: Peer)

  /** What the dispatcher can receive: a message, a registration, a
      deregistration or the quit signal, one per channel of the server. */
  datatype Event = Msg(msg: Message) | AddPeer(peer: Peer) | DelPeer(peer: Peer) | Quit

  /** What decoding one value does: nothing (not an array), a command (nil
      for an unrecognised head), or an index-out-of-range panic. */
  datatype Decoded = Ignored | Cmd(cmd: Command) | IndexPanic

  /** The switch of the read loop over the head of a request array. */
  function Decode(v: Value): (r: Decoded)
    ensures r.Ignored? <==> !v.Array?
    ensures r.IndexPanic? ==> v.Array? && |v.elems| < 3
    ensures r.Cmd? && !r.cmd.None? ==>
      v.Array? && |v.elems| > 0 && v.elems[0].str in {CommandSet, CommandGet, CommandHello, CommandClient}
  {
    match v
    case Other => Ignored
    case Array(es) =>
      if |es| == 0 then IndexPanic
      else if es[0].str == CommandClient then
        if |es| < 2 then IndexPanic else Cmd(Client(es[1].str))
      else if es[0].str == CommandGet then
        if |es| < 2 then IndexPanic else Cmd(Get(es[1].bytes))
      else if es[0].str == CommandSet then
        if |es| < 3 then IndexPanic else Cmd(Set(es[1].bytes, es[2].bytes))
      else if es[0].str == CommandHello then
        Cmd(Hello(""))
      else
        Cmd(None)
  }

  /** A value that is not an array yields no command. */
  lemma DecodeNonArray(v: Value)
    requires !v.Array?
    ensures Decode(v) == Ignored
  {
  }

  /** Indexing the head of an empty array panics. */
  lemma DecodeEmptyArray()
    ensures Decode(Array([])) == IndexPanic
  {
  }

  /** "set" takes its key and value from elements 1 and 2; fewer than three
      elements panic. */
  lemma DecodeSet(es: seq<Elem>)
    requires |es| > 0 && es[0].str == CommandSet
    ensures Decode(Array(es)) == if |es| >= 3 then Cmd(Set(es[1].bytes, es[2].bytes)) else IndexPanic
  {
  }

  /** "get" takes its key from element 1; fewer than two elements panic. */
  lemma DecodeGet(es: seq<Elem>)
    requires |es| > 0 && es[0].str == CommandGet
    ensures Decode(Array(es)) == if |es| >= 2 then Cmd(Get(es[1].bytes)) else IndexPanic
  {
  }

  /** "client" takes element 1 as text; fewer than two elements panic. */
  lemma DecodeClient(es: seq<Elem>)
    requires |es| > 0 && es[0].str == CommandClient
    ensures Decode(Array(es)) == if |es| >= 2 then Cmd(Client(es[1].str)) else IndexPanic
  {
  }

  /** "hello" yields a HELLO with an empty value whatever follows the head. */
  lemma DecodeHello(es: seq<Elem>, rest: seq<Elem>)
    requires |es| > 0 && es[0].str == CommandHello
    ensures Decode(Array(es)) == Cmd(Hello(""))
    ensures Decode(Array(es[..1] + rest)) == Decode(Array(es))
  {
  }

  /** Matching is exact: a non-empty array gives a nil command exactly when its
      head is none of the four names, and a real command otherwise (or a panic). */
  lemma DecodeUnrecognised(es: seq<Elem>)
    requires |es| > 0
    ensures Decode(Array(es)) == Cmd(None) <==>
      es[0].str !in {CommandSet, CommandGet, CommandHello, CommandClient}
  {
  }

  /** A canonical request array for a command (head, then its arguments). */
  function Request(c: Command): (v: Value)
    requires !c.None?
    requires c.Client? ==> IsByteString(c.value)
  {
    match c
    case Set(k, x) => Array([NameElem(CommandSet), BytesElem(k), BytesElem(x)])
    case Get(k) => Array([NameElem(CommandGet), BytesElem(k)])
    case Client(s) => Array([NameElem(CommandClient), Elem(s, StringToBytes(s))])
    case Hello(_) => Array([NameElem(CommandHello)])
  }

  function NameElem(name: string): Elem
    requires IsByteString(name)
  {
    Elem(name, StringToBytes(name))
  }

  function BytesElem(b: Bytes): Elem {
    Elem(BytesToString(b), b)
  }

  /** Decoding gives back every command that a request can carry (HELLO's
      argument is never read, so only the empty one comes back). */
  lemma DecodeRequest(c: Command)
    requires !c.None?
    requires c.Client? ==> IsByteString(c.value)
    requires c.Hello? ==> c.value == ""
    ensures Decode(Request(c)) == Cmd(c)
  {
    CommandNamesDistinct();
  }

  // ---------------------------------------------------------------------
  // The read loop

  /** The events a read loop sends, and whether it ended in a panic. */
  datatype ReadResult = ReadResult(events: seq<Event>, panicked: bool)

  /** The events sent by the read loop of `p` on the connection stream `input`
      followed by end-of-stream, and whether it panicked on the way. */
  function Read(p: Peer, input: seq<Value>): ReadResult
    decreases |input|
  {
    if input == [] then ReadResult([DelPeer(p)], false)
    else
      match Decode(input[0])
      case Ignored => Read(p, input[1..])
      case IndexPanic => ReadResult([], true)
      case Cmd(c) =>
        var r := Read(p, input[1..]);
        ReadResult([Msg(Message(c, p))] + r.events, r.panicked)
  }

  /** Every event the read loop of `p` sends carries `p`; all are messages
      except one final deregistration, which is sent exactly when the loop
      reaches end-of-stream without panicking. */
  lemma {:induction false} ReadShape(p: Peer, input: seq<Value>)
    ensures var r := Read(p, input);
      && (forall i :: 0 <= i < |r.events| ==>
            (r.events[i].Msg? && r.events[i].msg.peer == p) ||
            (r.events[i] == DelPeer(p) && i == |r.events| - 1 && !r.panicked))
      && (!r.panicked ==> |r.events| > 0 && r.events[|r.events| - 1] == DelPeer(p))
    decreases |input|
  {
    if input != [] {
      ReadShape(p, input[1..]);
    }
  }

  /** The array values of `input`, in input order. */
  function Arrays(input: seq<Value>): (arrs: seq<Value>)
    ensures forall i :: 0 <= i < |arrs| ==> arrs[i].Array? && arrs[i] in input
    decreases |input|
  {
    if input == [] then []
    else (if input[0].Array? then [input[0]] else []) + Arrays(input[1..])
  }

  /** One message per array, in order, each carrying `p`. */
  function Messages(p: Peer, arrs: seq<Value>): seq<Event>
    requires forall i :: 0 <= i < |arrs| ==> Decode(arrs[i]).Cmd?
  {
    seq(|arrs|, i requires 0 <= i < |arrs| => Msg(Message(Decode(arrs[i]).cmd, p)))
  }

  lemma MessagesCons(p: Peer, v: Value, arrs: seq<Value>)
    requires Decode(v).Cmd?
    requires forall i :: 0 <= i < |arrs| ==> Decode(arrs[i]).Cmd?
    ensures Messages(p, [v] + arrs) == [Msg(Message(Decode(v).cmd, p))] + Messages(p, arrs)
  {
  }

  /** Without a malformed request, the loop sends one message per array value,
      in input order, and then exactly one deregistration. */
  lemma {:induction false} ReadWithoutPanic(p: Peer, input: seq<Value>)
    requires forall i :: 0 <= i < |input| ==> !Decode(input[i]).IndexPanic?
    ensures forall i :: 0 <= i < |Arrays(input)| ==> Decode(Arrays(input)[i]).Cmd?
    ensures Read(p, input) == ReadResult(Messages(p, Arrays(input)) + [DelPeer(p)], false)
    decreases |input|
  {
    if input != [] {
      ReadWithoutPanic(p, input[1..]);
      var v := input[0];
      if v.Array? {
        assert Arrays(input) == [v] + Arrays(input[1..]);
        MessagesCons(p, v, Arrays(input[1..]));
      } else {
        assert Arrays(input) == Arrays(input[1..]);
      }
    }
  }

  /** With a malformed request at position j (the first one), the loop sends
      the messages of the arrays before it and then stops: no deregistration. */
  lemma {:induction false} ReadWithPanic(p: Peer, input: seq<Value>, j: nat)
    requires j < |input| && Decode(input[j]).IndexPanic?
    requires forall i :: 0 <= i < j ==> !Decode(input[i]).IndexPanic?
    ensures forall i :: 0 <= i < |Arrays(input[..j])| ==> Decode(Arrays(input[..j])[i]).Cmd?
    ensures Read(p, input) == ReadResult(Messages(p, Arrays(input[..j])), true)
    decreases j
  {
    var v := input[0];
    if j == 0 {
      assert input[..0] == [];
    } else {
      assert input[1..][..j - 1] == input[..j][1..];
      ReadWithPanic(p, input[1..], j - 1);
      assert input[..j] == [v] + input[..j][1..];
      if v.Array? {
        assert Arrays(input[..j]) == [v] + Arrays(input[..j][1..]);
        MessagesCons(p, v, Arrays(input[..j][1..]));
      } else {
        assert Arrays(input[..j]) == Arrays(input[..j][1..]);
      }
    }
  }

  /** What `Read` does with the value at position i: one unfolding of its definition. */
  lemma ReadAt(p: Peer, input: seq<Value>, i: nat)
    requires i < |input|
    ensures var rest := Read(p, input[i + 1..]);
      Read(p, input[i..]) ==
        match Decode(input[i])
        case Ignored => rest
        case IndexPanic => ReadResult([], true)
        case Cmd(c) => ReadResult([Msg(Message(c, p))] + rest.events, rest.panicked)
  {
    assert input[i..][1..] == input[i + 1..];
  }

  /** One client connection. Object identity stands for Go's pointer identity. */
  class Peer {
    const conn: Conn

    /** NewPeer: a handler for a freshly accepted connection. */
    constructor (conn: Conn)
      ensures this.conn == conn
    {
      this.conn := conn;
    }

    /** readLoop: read values until end-of-stream, sending one message per
        array value and, at end-of-stream, the deregistration of this peer.
        `panicked` reports an index-out-of-range panic on a short request,
        which ends the loop with nothing further sent. */
    method ReadLoop(input: seq<Value>) returns (sent: seq<Event>, panicked: bool)
      ensures ReadResult(sent, panicked) == Read(this, input)
    {
      sent, panicked := [], false;
      var i := 0;
      while true
        invariant 0 <= i <= |input|
        invariant !panicked
        invariant Read(this, input) ==
          ReadResult(sent + Read(this, input[i..]).events, Read(this, input[i..]).panicked)
        decreases |input| - i
      {
        if i == |input| {
          // end-of-stream
          sent := sent + [DelPeer(this)];
          break;
        }
        var v := input[i];
        ReadAt(this, input, i);
        i := i + 1;
        match Decode(v)
        case Ignored =>
        case IndexPanic =>
          panicked := true;
          return;
        case Cmd(c) =>
          sent := sent + [Msg(Message(c, this))];
      }
    }
  }
}
