/**
  The chat server's shared state and its two operations (`broadcast_message` and `handle_client` in
  A3/Server.py), run one session at a time. The `clients` dictionary is a field the methods reassign;
  the sockets are numbers, and every successful `sendall` is appended to `sent`.
 */
module ChatServer {
  import opened Wrappers
  import opened ClientTable
  import opened ChatProtocol
  import opened ChatSession

  class Server {
    /** `clients`: socket to panda name. */
    var clients: Table
    /** Every successful `sendall`, in order. */
    var sent: seq<Delivery>
    /** The sockets whose `sendall` raises. */
    const broken: set<ConnId>

    /** A dictionary holds each socket once. */
    ghost predicate Valid()
      reads this
    {
      Distinct(clients)
    }

    constructor(broken: set<ConnId>)
      ensures Valid() && clients == [] && sent == [] && this.broken == broken
    {
      clients := [];
      sent := [];
      this.broken := broken;
    }

    /** `sock.sendall(text)`: fails, raising, exactly on a broken socket. */
    method Send(to: ConnId, text: string) returns (ok: bool)
      modifies this
      ensures ok <==> to !in broken
      ensures clients == old(clients)
      ensures sent == old(sent) + (if ok then [Delivery(to, text)] else [])
    {
      ok := to !in broken;
      if ok {
        sent := sent + [Delivery(to, text)];
      }
    }

    /** `broadcast_message(message, sender)`: decorates once, then sends to every client but the sender. */
    method Broadcast(message: string, sender: Option<ConnId>, d: Draw)
      modifies this
      ensures clients == old(clients)
      ensures sent == old(sent) + Fanout(clients, sender, broken, Decorate(message, d))
    {
      var decorated := Decorate(message, d);
      for j := 0 to |clients|
        invariant clients == old(clients)
        invariant sent == old(sent) + Fanout(clients[..j], sender, broken, decorated)
      {
        var (sock, _) := clients[j];
        if Some(sock) != sender {
          var ok := Send(sock, decorated);
          // a failed send is reported and the loop goes on with the next client
        }
        FanoutAppend(clients[..j], [clients[j]], sender, broken, decorated);
        assert clients[..j + 1] == clients[..j] + [clients[j]];
      }
      assert clients[..|clients|] == clients;
    }

    /** One pass of the loop of `handle_client` for a received read `r`; `goOn` is false where the loop stops. */
    method HandleRead(c: ConnId, name: string, r: Read) returns (goOn: bool)
      modifies this
      ensures clients == old(clients)
      ensures sent == old(sent) + Step(clients, c, name, r, broken).out
      ensures goOn == Step(clients, c, name, r, broken).goOn
    {
      if r.line == "" {
        return false;  // the peer closed the connection
      }
      var cmd := Classify(r.line);
      if cmd == Bamboo {
        goOn := Send(c, FactReply(PandaFacts[r.draw.fact]));  // a send that raises ends the session
      } else if cmd == Grove {
        goOn := Send(c, GroveReply(Values(clients)));
      } else if cmd == Leaves {
        Broadcast(Farewell(name), Some(c), r.draw);
        goOn := false;
      } else {
        Broadcast(ChatLine(name, r.line), None, r.draw);
        goOn := true;
      }
    }

    /** One pass of the loop at read `i`, stated against the reads still to come. */
    method Advance(c: ConnId, name: string, input: seq<Read>, i: nat) returns (goOn: bool)
      requires i < |input|
      modifies this
      ensures clients == old(clients)
      ensures old(sent) + Steps(clients, c, name, input[i..], broken)
              == sent + (if goOn then Steps(clients, c, name, input[i + 1..], broken) else [])
    {
      ghost var before := sent;
      goOn := HandleRead(c, name, input[i]);
      StepsAdvance(clients, c, name, input, i, broken, before, sent);
    }

    /** The `while True` loop of `handle_client` over the reads after the name. */
    method Listen(c: ConnId, name: string, input: seq<Read>)
      modifies this
      ensures clients == old(clients)
      ensures sent == old(sent) + Steps(clients, c, name, input, broken)
    {
      var i := 0;
      while i < |input|
        invariant 0 <= i <= |input|
        invariant clients == old(clients)
        invariant old(sent) + Steps(clients, c, name, input, broken) == sent + Steps(clients, c, name, input[i..], broken)
      {
        var goOn := Advance(c, name, input, i);
        if !goOn {
          return;
        }
        i := i + 1;
      }
    }

    /** `handle_client` after the registration: welcome, announce the arrival, and run the loop. */
    method Serve(c: ConnId, name: string, joinDraw: Draw, input: seq<Read>)
      modifies this
      ensures clients == old(clients)
      ensures sent == old(sent) + Served(clients, c, name, joinDraw, input, broken)
    {
      var ok := Send(c, Welcome(name));  // a send that raises ends the session
      if ok {
        Broadcast(Joined(name), Some(c), joinDraw);
        Listen(c, name, input);
        ghost var welcome, join, loop := [Delivery(c, Welcome(name))], Fanout(clients, Some(c), broken, Decorate(Joined(name), joinDraw)),
          Steps(clients, c, name, input, broken);
        assert old(sent) + (welcome + join + loop) == old(sent) + welcome + join + loop;
      }
    }

    /** `clients[client_socket] = panda_name`: the socket now maps to the name and no other entry changes. */
    method Register(c: ConnId, name: string)
      requires Valid()
      modifies this
      ensures Valid()
      ensures clients == Put(old(clients), c, name) && sent == old(sent)
      ensures Lookup(clients, c) == Some(name)
      ensures forall x :: x != c ==> Lookup(clients, x) == Lookup(old(clients), x)
    {
      PutDistinct(clients, c, name);
      forall x ensures Lookup(Put(clients, c, name), x) == if x == c then Some(name) else Lookup(clients, x) {
        PutLookup(clients, c, name, x);
      }
      clients := Put(clients, c, name);
    }

    /** The cleanup: `if client_socket in clients: del clients[client_socket]`; an absent socket changes nothing. */
    method Cleanup(c: ConnId)
      requires Valid()
      modifies this
      ensures Valid()
      ensures clients == Remove(old(clients), c) && sent == old(sent)
      ensures Lookup(clients, c) == None
      ensures forall x :: x != c ==> Lookup(clients, x) == Lookup(old(clients), x)
    {
      LookupKeys(clients, c);
      forall x ensures Lookup(Remove(clients, c), x) == if x == c then None else Lookup(clients, x) {
        RemoveLookup(clients, c, x);
      }
      if Lookup(clients, c).Some? {
        RemoveDistinct(clients, c);
        clients := Remove(clients, c);
      } else {
        RemoveAbsent(clients, c);
      }
    }

    /**
      `handle_client` for socket `c`: `first` is the first read (the name), `input` the reads after it.
      The session sends what `Session` says, and the cleanup leaves the table as registration and
      removal make it.
     */
    method HandleClient(c: ConnId, first: string, joinDraw: Draw, input: seq<Read>)
      requires Valid()
      modifies this
      ensures Valid()
      ensures sent == old(sent) + Session(old(clients), c, first, joinDraw, input, broken)
      ensures clients == Remove(Put(old(clients), c, DisplayName(first)), c)
      ensures Lookup(clients, c) == None
      ensures forall x :: x != c ==> Lookup(clients, x) == Lookup(old(clients), x)
    {
      var name := DisplayName(first);
      Register(c, name);
      Serve(c, name, joinDraw, input);
      Cleanup(c);
    }
  }
}
