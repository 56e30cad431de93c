/**
 The decisions `start_client` makes on text: what to do with a line typed
 at the prompt, and what to do with the broker's reply to a `SEND`.
 */
module Client {
  import opened Options
  import opened Text
  import opened Broker

  /** `Quit` leaves the loop, `Forward` writes the line to the broker,
      `Ignore` goes straight back to the prompt. */
  datatype Command = Quit | Forward(request: string) | Ignore

  function Classify(action: string): (cmd: Command)
    ensures cmd.Forward? ==> cmd.request == action
  {
    if Lower(action) == "exit" then Quit
    else if StartsWith(action, "SEND") then Forward(action)
    else Ignore
  }

  /** "exit" in any mix of letter cases, spelled out letter by letter. */
  predicate IsExitAnyCase(a: string) {
    |a| == 4 && a[0] in "eE" && a[1] in "xX" && a[2] in "iI" && a[3] in "tT"
  }

  /** What the client does with the broker's reply.  A reply starting with
      "OK" must unpack into four tokens; `BadReply` is the reply for which
      the unpacking raises. */
  datatype ReplyAction =
    | Connect(ip: string, port: string, file: string)
    | Display(text: string)
    | BadReply(count: nat)

  function HandleReply(response: string): (act: ReplyAction)
    ensures act.Display? <==> !StartsWith(response, "OK")
    ensures act.Display? ==> act.text == response
    ensures act.BadReply? ==> act.count == |Split(response)| && act.count != 4
    ensures act.Connect? ==> && |Split(response)| == 4
                             && Split(response)[1..] == [act.ip, act.port, act.file]
  {
    if StartsWith(response, "OK") then
      var t := Split(response);
      if |t| == 4 then Connect(t[1], t[2], t[3]) else BadReply(|t|)
    else Display(response)
  }

  // ---------------------------------------------------------------- lemmas

  lemma LowerCharIs(c: char, lo: char, up: char)
    requires 'a' <= lo <= 'z' && up as int == lo as int - 'a' as int + 'A' as int
    ensures LowerChar(c) == lo <==> c == lo || c == up
  {
  }

  /** `action.lower() == 'exit'` holds exactly for the sixteen spellings of
      "exit". */
  lemma ClassifyQuit(a: string)
    ensures Classify(a) == Quit <==> IsExitAnyCase(a)
  {
    LowerCharIs('e', 'e', 'E');
    if |a| == 4 {
      LowerCharIs(a[0], 'e', 'E');
      LowerCharIs(a[1], 'x', 'X');
      LowerCharIs(a[2], 'i', 'I');
      LowerCharIs(a[3], 't', 'T');
      if IsExitAnyCase(a) {
        assert Lower(a) == "exit";
      }
      if Lower(a) == "exit" {
        assert Lower(a)[0] == 'e' && Lower(a)[1] == 'x' && Lower(a)[2] == 'i' && Lower(a)[3] == 't';
      }
    }
  }

  /** Exactly the lines starting with "SEND" are forwarded; no spelling of
      "exit" starts with it. */
  lemma ClassifyForward(a: string)
    ensures Classify(a).Forward? <==> StartsWith(a, "SEND")
  {
    if StartsWith(a, "SEND") {
      assert a[0] == 'S';
      assert Lower(a)[0] == 's';
    }
  }

  /** Every forwarded line is taken by the broker as a `SEND` request:
      the broker strips it first, which cannot remove the prefix. */
  lemma ForwardReachesBroker(a: string)
    requires Classify(a).Forward?
    ensures !ParseRequest(a).NotSend?
  {
    ClassifyForward(a);
    assert IsToken("SEND");
    StripKeepsPrefix(a, "SEND");
  }

  /** The broker's error reply is only ever displayed. */
  lemma ErrorOnlyDisplayed(receiver: string)
    ensures HandleReply(NotAvailableReply(receiver)) == Display(NotAvailableReply(receiver))
  {
    assert NotAvailableReply(receiver)[0] == 'E';
  }

  /** Cross-file round trip: the client's parse of the broker's reply
      recovers the stored host, the decimal port and the file, provided the
      host is a single token. */
  lemma ReplyRoundTrip(clients: Registry, receiver: string, file: string)
    requires IsToken(file)
    requires receiver in clients ==> IsToken(clients[receiver].host)
    ensures receiver in clients ==>
              HandleReply(Resolve(clients, receiver, file))
              == Connect(clients[receiver].host, DecimalText(clients[receiver].port), file)
    ensures receiver !in clients ==>
              HandleReply(Resolve(clients, receiver, file)) == Display(NotAvailableReply(receiver))
  {
    if receiver in clients {
      var a := clients[receiver];
      DecimalIsToken(a.port);
      assert IsToken("OK");
      SplitJoin(["OK", a.host, DecimalText(a.port), file]);
    } else {
      ErrorOnlyDisplayed(receiver);
    }
  }

  /** One request cycle: a forwarded line is a `SEND` request for the
      broker, and a well-formed one leads the client to connect exactly when
      the named receiver is registered, and then to the receiver's stored
      host and port. */
  lemma RequestCycle(clients: Registry, action: string)
    requires Classify(action).Forward?
    requires forall n :: n in clients ==> IsToken(clients[n].host)
    ensures !ParseRequest(action).NotSend?
    ensures var q := ParseRequest(action);
            q.Send? ==>
              var act := HandleReply(Resolve(clients, q.receiver, q.file));
              && (act.Connect? <==> q.receiver in clients)
              && (act.Connect? ==> && act.ip == clients[q.receiver].host
                                   && act.port == DecimalText(clients[q.receiver].port)
                                   && act.file == q.file)
  {
    ForwardReachesBroker(action);
    var q := ParseRequest(action);
    if q.Send? {
      ReplyRoundTrip(clients, q.receiver, q.file);
    }
  }

  lemma TokenLiterals()
    ensures IsToken("alice") && IsToken("bob") && IsToken("carol")
    ensures IsToken("SEND") && IsToken("report.txt")
  {
  }

  /** A well-formed `SEND` line read by a registered handler is answered
      with the broker's lookup of the receiver. */
  lemma SendAnswered(w: World, id: nat, receiver: string, file: string)
    requires id in w.handlers && w.handlers[id].phase.Serving?
    requires IsToken(receiver) && IsToken(file)
    ensures Apply(w, Read(id, "SEND" + " " + receiver + " " + file)).reply
            == Some(Resolve(w.clients, receiver, file))
  {
    assert IsToken("SEND");
    ParseJoined("SEND", receiver, file);
  }

  /** The world after "alice" and then "bob" connect and register. */
  lemma AliceAndBob(alice: Address, bob: Address)
    ensures Run(Start, [Accept(1, alice), Read(1, "alice"), Accept(2, bob), Read(2, "bob")])
            == World(map["alice" := alice, "bob" := bob],
                     map[1 := Handler(alice, Serving("alice")), 2 := Handler(bob, Serving("bob"))])
  {
    StripUnchanged("alice");
    StripUnchanged("bob");
    var first := [Accept(1, alice), Read(1, "alice")];
    var second := [Accept(2, bob), Read(2, "bob")];
    var w2 := World(map["alice" := alice], map[1 := Handler(alice, Serving("alice"))]);
    assert [Accept(1, alice), Read(1, "alice"), Accept(2, bob), Read(2, "bob")] == first + second;
    calc {
      Run(Start, first + second);
      { RunAppend(Start, first, second); }
      Run(Run(Start, first), second);
      { Register(Start, 1, alice, "alice"); }
      Run(w2, second);
      { Register(w2, 2, bob, "bob"); }
      World(map["alice" := alice, "bob" := bob],
            map[1 := Handler(alice, Serving("alice")), 2 := Handler(bob, Serving("bob"))]);
    }
  }

  /** "alice" and "bob" register; alice's `SEND bob report.txt` is answered
      with bob's address, which the client turns into a connection. */
  lemma AliceSendsToBob(alice: Address, bob: Address)
    requires IsToken(bob.host)
    ensures var w := Run(Start, [Accept(1, alice), Read(1, "alice"), Accept(2, bob), Read(2, "bob")]);
            var o := Apply(w, Read(1, "SEND bob report.txt"));
            && o.reply == Some(OkReply(bob, "report.txt"))
            && HandleReply(o.reply.value) == Connect(bob.host, DecimalText(bob.port), "report.txt")
  {
    TokenLiterals();
    AliceAndBob(alice, bob);
    var w4 := World(map["alice" := alice, "bob" := bob],
                    map[1 := Handler(alice, Serving("alice")), 2 := Handler(bob, Serving("bob"))]);
    BobLine();
    SendAnswered(w4, 1, "bob", "report.txt");
    ReplyRoundTrip(w4.clients, "bob", "report.txt");
  }

  /** "carol" never registered: the reply names her and the client only
      displays it. */
  lemma AliceSendsToCarol(alice: Address)
    ensures var w := Run(Start, [Accept(1, alice), Read(1, "alice")]);
            var o := Apply(w, Read(1, "SEND carol report.txt"));
            && o.reply == Some("ERROR: Receiver carol not available.")
            && HandleReply(o.reply.value).Display?
  {
    TokenLiterals();
    AliceAlone(alice);
    var w := World(map["alice" := alice], map[1 := Handler(alice, Serving("alice"))]);
    CarolLine();
    SendAnswered(w, 1, "carol", "report.txt");
    assert "carol" !in w.clients;
    CarolReply();
    ErrorOnlyDisplayed("carol");
  }

  lemma AliceAlone(alice: Address)
    ensures Run(Start, [Accept(1, alice), Read(1, "alice")])
            == World(map["alice" := alice], map[1 := Handler(alice, Serving("alice"))])
  {
    TokenLiterals();
    StripUnchanged("alice");
    Register(Start, 1, alice, "alice");
  }

  lemma CarolLine()
    ensures "SEND carol report.txt" == "SEND" + " " + "carol" + " " + "report.txt"
  {
  }

  lemma BobLine()
    ensures "SEND bob report.txt" == "SEND" + " " + "bob" + " " + "report.txt"
  {
  }
}
