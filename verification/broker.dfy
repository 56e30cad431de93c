/**
 The rendezvous broker: a process-wide registry from peer name to the
 address a peer connected from, and one handler per connection.  A
 handler's first read is the peer's name, which is registered (silently
 replacing any earlier entry).  Each later read either is a `SEND` request,
 answered from the registry, or is ignored; an empty read ends the session
 and leaves the registration in place.

 Each read is taken to deliver one whole message, and the code between two
 awaits runs atomically, as it does under asyncio's single-threaded loop;
 the shared registry is threaded through the steps of all connections.
 */
module Broker {
  import opened Options
  import opened Text

  type Port = p: int | 0 <= p < 65536

  /** `writer.get_extra_info('peername')`: host text and port. */
  datatype Address = Address(host: string, port: Port)

  /** The `clients` dictionary. */
  type Registry = map<string, Address>

  // ------------------------------------------------------------ messages

  /** How a message after registration is read.  `Malformed` is a message
      starting with "SEND" that does not unpack into three tokens: the
      source raises there. */
  datatype Request = NotSend | Malformed(count: nat) | Send(receiver: string, file: string)

  function ParseRequest(data: string): (q: Request)
    ensures q.NotSend? <==> !StartsWith(Strip(data), "SEND")
    ensures q.Malformed? ==> q.count == |Split(data)| && q.count != 3
    ensures q.Send? ==> |Split(data)| == 3 && Split(data)[1] == q.receiver && Split(data)[2] == q.file
  {
    var m := Strip(data);
    if !StartsWith(m, "SEND") then NotSend
    else
      var t := Split(m);
      SplitStrip(data);
      if |t| != 3 then Malformed(|t|) else Send(t[1], t[2])
  }

  /** A request line of three tokens yields its second and third; the
      first is only checked for the "SEND" prefix. */
  lemma ParseJoined(tag: string, receiver: string, file: string)
    requires IsToken(tag) && StartsWith(tag, "SEND")
    requires IsToken(receiver) && IsToken(file)
    ensures ParseRequest(tag + " " + receiver + " " + file) == Send(receiver, file)
  {
    var m := tag + " " + receiver + " " + file;
    var ws := [tag, receiver, file];
    JoinThree(tag, receiver, file);
    SplitJoin(ws);
    EndsOfThree(tag, receiver, file);
    StripUnchanged(m);
    ParseOf(m, ws);
  }

  /** Three words joined by single spaces, as `" ".join` writes them. */
  lemma JoinThree(a: string, b: string, c: string)
    ensures a + " " + b + " " + c == JoinSpace([a, b, c])
  {
    calc {
      JoinSpace([a, b, c]);
      { assert [a, b, c][1..] == [b, c]; }
      a + " " + JoinSpace([b, c]);
      { assert [b, c][1..] == [c]; }
      a + " " + (b + " " + c);
      a + " " + b + " " + c;
    }
  }

  /** The first and last characters of `tag + " " + receiver + " " + file`,
      and its first four. */
  lemma EndsOfThree(tag: string, receiver: string, file: string)
    requires IsToken(tag) && StartsWith(tag, "SEND") && IsToken(file)
    ensures var m := tag + " " + receiver + " " + file;
            && m[0] == tag[0] && m[|m| - 1] == file[|file| - 1]
            && StartsWith(m, "SEND")
  {
    var m := tag + " " + receiver + " " + file;
    assert m[..|tag|] == tag;
    assert m[..4] == tag[..4];
  }

  lemma ParseOf(m: string, ws: seq<string>)
    requires Strip(m) == m && StartsWith(m, "SEND")
    requires Split(m) == ws && |ws| == 3
    ensures ParseRequest(m) == Send(ws[1], ws[2])
  {
  }

  /** The success reply: the four fields joined by single spaces. */
  function OkReply(a: Address, file: string): (reply: string)
    ensures reply == JoinSpace(["OK", a.host, DecimalText(a.port), file])
  {
    var r := "OK " + a.host + " " + DecimalText(a.port) + " " + file;
    assert JoinSpace([DecimalText(a.port), file]) == DecimalText(a.port) + " " + file;
    r
  }

  /** The error reply naming a receiver that is not registered. */
  function NotAvailableReply(receiver: string): (reply: string)
    ensures |reply| == |receiver| + 31
    ensures reply[..16] == "ERROR: Receiver " && reply[16..16 + |receiver|] == receiver
    ensures reply[16 + |receiver|..] == " not available."
  {
    "ERROR: Receiver " + receiver + " not available."
  }

  /** The reply to `SEND <receiver> <file>`.  It starts with "OK" exactly
      when the receiver is registered, and then carries its stored address. */
  function Resolve(clients: Registry, receiver: string, file: string): (reply: string)
    ensures StartsWith(reply, "OK") <==> receiver in clients
    ensures receiver in clients ==> reply == OkReply(clients[receiver], file)
    ensures receiver !in clients ==> reply == NotAvailableReply(receiver)
  {
    if receiver in clients then OkReply(clients[receiver], file)
    else
      var r := NotAvailableReply(receiver);
      assert r[0] == 'E';
      r
  }

  // ------------------------------------------------------------- handlers

  /** Where a handler is in `handle_client`.  `Crashed` is a handler that
      raised on a malformed request; its task ended. */
  datatype Phase =
    | AwaitingName
    | Serving(name: string)
    | Closed(name: string)
    | Crashed(name: string)

  datatype Handler = Handler(peer: Address, phase: Phase)

  datatype Step = Step(clients: Registry, handler: Handler, reply: Option<string>)

  /** One completed `reader.read(100)` of the handler `h` and the code that
      runs on it; `data == ""` is the empty read at end of stream. */
  function OnRead(clients: Registry, h: Handler, data: string): (s: Step)
    ensures s.handler.peer == h.peer
    ensures h.phase.AwaitingName? ==> && s.clients == clients[Strip(data) := h.peer]
                                      && s.handler.phase == Serving(Strip(data))
                                      && s.reply == None
    ensures !h.phase.AwaitingName? ==> s.clients == clients
    ensures !h.phase.AwaitingName? ==> (!s.handler.phase.AwaitingName? && s.handler.phase.name == h.phase.name)
    ensures h.phase.Serving? && data != "" && ParseRequest(data).Malformed?
            ==> s.handler.phase == Crashed(h.phase.name)
    ensures h.phase.Serving? && data != "" && !ParseRequest(data).Malformed? ==> s.handler == h
    ensures h.phase.Closed? || h.phase.Crashed? ==> s == Step(clients, h, None)
    ensures s.reply.Some? <==> h.phase.Serving? && data != "" && ParseRequest(data).Send?
    ensures s.reply.Some? ==> s.reply.value == Resolve(clients, ParseRequest(data).receiver, ParseRequest(data).file)
  {
    match h.phase
    case AwaitingName =>
      var name := Strip(data);
      Step(clients[name := h.peer], Handler(h.peer, Serving(name)), None)
    case Serving(name) =>
      if data == "" then Step(clients, Handler(h.peer, Closed(name)), None)
      else
        (match ParseRequest(data)
         case NotSend => Step(clients, h, None)
         case Malformed(_) => Step(clients, Handler(h.peer, Crashed(name)), None)
         case Send(receiver, file) => Step(clients, h, Some(Resolve(clients, receiver, file))))
    case Closed(_) => Step(clients, h, None)
    case Crashed(_) => Step(clients, h, None)
  }

  /** Handling a request, of either outcome, never touches the registry; a
      message that is not a `SEND` leaves the handler as it was and gets
      no reply. */
  lemma RequestLeavesRegistry(clients: Registry, h: Handler, data: string)
    requires h.phase.Serving? && data != ""
    ensures OnRead(clients, h, data).clients == clients
    ensures ParseRequest(data).NotSend? ==> OnRead(clients, h, data) == Step(clients, h, None)
  {
  }

  /** An empty read ends the session without removing its registration;
      the loop is left for good, so nothing read later has any effect. */
  lemma EndOfStreamKeepsEntry(clients: Registry, h: Handler, later: string)
    requires h.phase.Serving?
    ensures var s := OnRead(clients, h, "");
            s == Step(clients, Handler(h.peer, Closed(h.phase.name)), None)
            && OnRead(clients, s.handler, later) == Step(clients, s.handler, None)
  {
  }

  /** A `SEND` that does not unpack into three tokens raises in the
      handler: its task ends with no reply, and from then on nothing it
      reads is answered or changes anything. */
  lemma MalformedEndsSession(clients: Registry, h: Handler, data: string, later: string)
    requires h.phase.Serving? && data != "" && ParseRequest(data).Malformed?
    ensures var s := OnRead(clients, h, data);
            s == Step(clients, Handler(h.peer, Crashed(h.phase.name)), None)
            && OnRead(clients, s.handler, later) == Step(clients, s.handler, None)
  {
  }

  // --------------------------------------------------------------- world

  /** Every connection the server has accepted, by connection number, and
      the shared registry. */
  datatype World = World(clients: Registry, handlers: map<nat, Handler>)

  datatype Event = Accept(id: nat, peer: Address) | Read(id: nat, data: string)

  datatype Outcome = Outcome(world: World, reply: Option<string>)

  const Start: World := World(map[], map[])

  /** One atomic step of the server: a new connection (a fresh handler in
      `AwaitingName`), or one read by an existing handler. */
  function Apply(w: World, e: Event): (o: Outcome)
    ensures o.world.handlers.Keys >= w.handlers.Keys
    ensures forall id :: id in w.handlers ==> o.world.handlers[id].peer == w.handlers[id].peer
    ensures forall id :: id in w.handlers && !(e.Read? && e.id == id) ==> o.world.handlers[id] == w.handlers[id]
    ensures o.reply.Some? ==> && e.Read? && e.id in w.handlers
                              && o.reply == OnRead(w.clients, w.handlers[e.id], e.data).reply
  {
    match e
    case Accept(id, peer) =>
      if id in w.handlers then Outcome(w, None)
      else Outcome(World(w.clients, w.handlers[id := Handler(peer, AwaitingName)]), None)
    case Read(id, data) =>
      if id !in w.handlers then Outcome(w, None)
      else
        var s := OnRead(w.clients, w.handlers[id], data);
        Outcome(World(s.clients, w.handlers[id := s.handler]), s.reply)
  }

  /** The server after `events`, in order, from `w`. */
  function Run(w: World, events: seq<Event>): (r: World)
    ensures r.handlers.Keys >= w.handlers.Keys
    ensures forall id :: id in w.handlers ==> r.handlers[id].peer == w.handlers[id].peer
    decreases |events|
  {
    if events == [] then w else Run(Apply(w, events[0]).world, events[1..])
  }

  /** Event `e` registers the name `n` when it is the first read of a
      connection that has not registered yet. */
  predicate Registers(w: World, e: Event, n: string) {
    e.Read? && e.id in w.handlers && w.handlers[e.id].phase.AwaitingName? && Strip(e.data) == n
  }

  /** Every registry entry holds the address of a connection that
      registered under that name, whether that connection is still open
      or not. */
  ghost predicate EntriesFromConnections(w: World) {
    forall n :: n in w.clients ==>
      exists id :: id in w.handlers && EntryOwner(w, n, id)
  }

  ghost predicate EntryOwner(w: World, n: string, id: nat)
    requires n in w.clients && id in w.handlers
  {
    && !w.handlers[id].phase.AwaitingName?
    && w.handlers[id].phase.name == n
    && w.handlers[id].peer == w.clients[n]
  }

  // ---------------------------------------------------------------- lemmas

  lemma ApplyKeepsEntries(w: World, e: Event)
    requires EntriesFromConnections(w)
    ensures EntriesFromConnections(Apply(w, e).world)
  {
    var w' := Apply(w, e).world;
    forall n | n in w'.clients
      ensures exists id :: id in w'.handlers && EntryOwner(w', n, id)
    {
      EntryOwnedAfter(w, e, n);
    }
  }

  /** The owner of one entry after a step: the registering connection, or
      the entry's owner before it. */
  lemma EntryOwnedAfter(w: World, e: Event, n: string)
    requires EntriesFromConnections(w)
    requires n in Apply(w, e).world.clients
    ensures exists id :: id in Apply(w, e).world.handlers && EntryOwner(Apply(w, e).world, n, id)
  {
    var w' := Apply(w, e).world;
    if Registers(w, e, n) {
      assert EntryOwner(w', n, e.id);
    } else {
      assert n in w.clients && w'.clients[n] == w.clients[n];
      var id :| id in w.handlers && EntryOwner(w, n, id);
      assert EntryOwner(w', n, id);
    }
  }

  /** From the start, every entry is always owned by a connection that
      registered that name from that address. */
  lemma {:induction false} RunKeepsEntries(w: World, events: seq<Event>)
    requires EntriesFromConnections(w)
    ensures EntriesFromConnections(Run(w, events))
    decreases |events|
  {
    if events != [] {
      ApplyKeepsEntries(w, events[0]);
      RunKeepsEntries(Apply(w, events[0]).world, events[1..]);
    }
  }

  lemma RunCons(w: World, e: Event, rest: seq<Event>)
    ensures Run(w, [e] + rest) == Run(Apply(w, e).world, rest)
  {
    assert ([e] + rest)[1..] == rest;
  }

  /** Running two batches of events one after the other is running them
      together. */
  lemma {:induction false} RunAppend(w: World, a: seq<Event>, b: seq<Event>)
    ensures Run(w, a + b) == Run(Run(w, a), b)
    decreases |a|
  {
    if a == [] {
      assert a + b == b;
    } else {
      assert (a + b)[0] == a[0] && (a + b)[1..] == a[1..] + b;
      RunAppend(Apply(w, a[0]).world, a[1..], b);
    }
  }

  /** The world after `name` connects as connection `id` from `peer` and
      registers. */
  lemma Register(w: World, id: nat, peer: Address, name: string)
    requires id !in w.handlers && Strip(name) == name
    ensures Run(w, [Accept(id, peer), Read(id, name)])
            == World(w.clients[name := peer], w.handlers[id := Handler(peer, Serving(name))])
  {
    var w1 := World(w.clients, w.handlers[id := Handler(peer, AwaitingName)]);
    var w2 := World(w.clients[name := peer], w.handlers[id := Handler(peer, Serving(name))]);
    assert Apply(w, Accept(id, peer)).world == w1;
    assert w1.handlers[id] == Handler(peer, AwaitingName);
    assert Apply(w1, Read(id, name)).world == w2;
    RunCons(w, Accept(id, peer), [Read(id, name)]);
    RunCons(w1, Read(id, name), []);
    assert [Accept(id, peer), Read(id, name)] == [Accept(id, peer)] + [Read(id, name)];
  }

  lemma StartIsSound()
    ensures EntriesFromConnections(Start)
  {
  }

  /** No step ever removes a name: entries of closed and crashed sessions
      stay, stale, until someone registers the name again. */
  lemma {:induction false} RunNeverForgets(w: World, events: seq<Event>)
    ensures Run(w, events).clients.Keys >= w.clients.Keys
    decreases |events|
  {
    if events != [] {
      RunNeverForgets(Apply(w, events[0]).world, events[1..]);
    }
  }

  lemma ApplyKeepsEntry(w: World, e: Event, n: string)
    requires n in w.clients && !Registers(w, e, n)
    ensures n in Apply(w, e).world.clients && Apply(w, e).world.clients[n] == w.clients[n]
  {
    if e.Read? && e.id in w.handlers {
      var h := w.handlers[e.id];
      var s := OnRead(w.clients, h, e.data);
      assert Apply(w, e).world.clients == s.clients;
      if h.phase.AwaitingName? {
        assert Strip(e.data) != n;
        assert s.clients == w.clients[Strip(e.data) := h.peer];
      } else {
        assert s.clients == w.clients;
      }
    }
  }

  /** Last write wins: an entry keeps its address through any run in which
      no step registers that name again. */
  lemma {:induction false} EntryStable(w: World, events: seq<Event>, n: string)
    requires n in w.clients
    requires forall k :: 0 <= k < |events| ==> !Registers(Run(w, events[..k]), events[k], n)
    ensures n in Run(w, events).clients && Run(w, events).clients[n] == w.clients[n]
    decreases |events|
  {
    if events != [] {
      var w1 := Apply(w, events[0]).world;
      assert Run(w, events[..0]) == w by { assert events[..0] == []; }
      ApplyKeepsEntry(w, events[0], n);
      var rest := events[1..];
      forall k | 0 <= k < |rest|
        ensures !Registers(Run(w1, rest[..k]), rest[k], n)
      {
        var pre := events[..k + 1];
        assert pre[0] == events[0] && pre[1..] == rest[..k];
        assert Run(w, pre) == Run(w1, rest[..k]);
        assert rest[k] == events[k + 1];
        assert !Registers(Run(w, events[..k + 1]), events[k + 1], n);
      }
      EntryStable(w1, rest, n);
      assert Run(w, events) == Run(w1, rest);
    }
  }

  /** A re-registration overwrites: the newer connection's address is what
      later requests are given. */
  lemma ReRegisterOverwrites(w: World, id: nat, data: string)
    requires id in w.handlers && w.handlers[id].phase.AwaitingName?
    ensures Apply(w, Read(id, data)).world.clients[Strip(data)] == w.handlers[id].peer
  {
    var s := OnRead(w.clients, w.handlers[id], data);
    assert s.clients == w.clients[Strip(data) := w.handlers[id].peer];
    assert Apply(w, Read(id, data)).world.clients == s.clients;
  }

  /** Resolution with "alice" and "bob" registered. */
  lemma ResolveExample(a: Address, b: Address)
    ensures var clients := map["alice" := a, "bob" := b];
            && Resolve(clients, "bob", "report.txt") == OkReply(b, "report.txt")
            && Resolve(clients, "carol", "report.txt") == "ERROR: Receiver carol not available."
  {
    var clients := map["alice" := a, "bob" := b];
    assert "carol"[0] != "alice"[0] && "carol"[0] != "bob"[0];
    assert "carol" !in clients;
    CarolReply();
  }

  lemma CarolReply()
    ensures NotAvailableReply("carol") == "ERROR: Receiver carol not available."
  {
  }
}
