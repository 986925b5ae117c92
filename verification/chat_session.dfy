/**
  What one client's connection makes the server send (`broadcast_message` and `handle_client` in
  A3/Server.py), as the sequence of successful `sendall` calls. Which sockets fail to send is a
  parameter `broken`; the random choices of each message come with the line that caused it.
 */
module ChatSession {
  import opened Wrappers
  import opened ClientTable
  import opened ChatProtocol

  /** One successful `sendall`: the socket and the text sent. */
  datatype Delivery = Delivery(to: ConnId, text: string)

  /** One `recv`, decoded, with the random choices its handling makes; an empty line means the peer closed. */
  datatype Read = Read(line: string, draw: Draw)

  /**
    The loop of `broadcast_message` over `clients.items()`: every socket except the sender gets the text,
    in table order; a socket whose send fails is skipped and the loop goes on.
   */
  function Fanout(t: Table, sender: Option<ConnId>, broken: set<ConnId>, text: string): seq<Delivery> {
    if t == [] then []
    else
      var c := t[0].0;
      (if Some(c) != sender && c !in broken then [Delivery(c, text)] else [])
      + Fanout(t[1..], sender, broken, text)
  }

  /** A broadcast reaches exactly the registered sockets other than the sender whose send succeeds, with the one text. */
  lemma {:induction false} FanoutRecipients(t: Table, sender: Option<ConnId>, broken: set<ConnId>, text: string, d: Delivery)
    ensures d in Fanout(t, sender, broken, text) <==> d.to in Keys(t) && Some(d.to) != sender && d.to !in broken && d.text == text
  {
    if t != [] {
      FanoutRecipients(t[1..], sender, broken, text, d);
    }
  }

  /** The broadcast loop visits the table in order, so a table split in two is broadcast to part by part. */
  lemma {:induction false} FanoutAppend(t: Table, u: Table, sender: Option<ConnId>, broken: set<ConnId>, text: string)
    ensures Fanout(t + u, sender, broken, text) == Fanout(t, sender, broken, text) + Fanout(u, sender, broken, text)
  {
    if t == [] {
      assert t + u == u;
    } else {
      assert (t + u)[1..] == t[1..] + u;
      FanoutAppend(t[1..], u, sender, broken, text);
    }
  }

  /** With no failing socket, a registered sender's broadcast reaches every other client once: one send fewer than there are clients. */
  lemma {:induction false} FanoutCount(t: Table, c: ConnId, text: string)
    requires Distinct(t) && c in Keys(t)
    ensures |Fanout(t, Some(c), {}, text)| == |t| - 1
  {
    assert t != [];
    assert Distinct(t[1..]) by {
      forall i, j | 0 <= i < j < |t[1..]| ensures t[1..][i].0 != t[1..][j].0 {
        assert t[1..][i] == t[i + 1] && t[1..][j] == t[j + 1];
      }
    }
    if t[0].0 == c {
      FanoutAll(t[1..], c, text);
    } else {
      FanoutCount(t[1..], c, text);
    }
  }

  /** A sender that is not in the table is skipped nowhere: everybody gets the text. */
  lemma {:induction false} FanoutAll(t: Table, c: ConnId, text: string)
    requires forall i :: 0 <= i < |t| ==> t[i].0 != c
    ensures |Fanout(t, Some(c), {}, text)| == |t|
  {
    if t != [] {
      FanoutAll(t[1..], c, text);
    }
  }

  /** What handling one read sends, and whether the loop goes on to the next read. */
  datatype Effect = Effect(out: seq<Delivery>, goOn: bool)

  /**
    One pass of the `while True` loop of `handle_client`: an empty read ends the loop with nothing sent;
    `@bamboo` and `@grove` answer the client alone (a failed send raises, which ends the session);
    `@leaves` tells the others and ends the loop; anything else goes to everybody, sender included.
   */
  function Step(t: Table, c: ConnId, name: string, r: Read, broken: set<ConnId>): Effect {
    if r.line == "" then Effect([], false)
    else
      match Classify(r.line)
      case Bamboo =>
        if c in broken then Effect([], false)
        else Effect([Delivery(c, FactReply(PandaFacts[r.draw.fact]))], true)
      case Grove =>
        if c in broken then Effect([], false)
        else Effect([Delivery(c, GroveReply(Values(t)))], true)
      case Leaves =>
        Effect(Fanout(t, Some(c), broken, Decorate(Farewell(name), r.draw)), false)
      case Chat =>
        Effect(Fanout(t, None, broken, Decorate(ChatLine(name, r.line), r.draw)), true)
  }

  /** The loop over the reads after the name; running out of reads means the connection closed. */
  function Steps(t: Table, c: ConnId, name: string, input: seq<Read>, broken: set<ConnId>): seq<Delivery>
    decreases |input|
  {
    if input == [] then []
    else
      var e := Step(t, c, name, input[0], broken);
      e.out + (if e.goOn then Steps(t, c, name, input[1..], broken) else [])
  }

  /** The loop at read `i`: that read's effect, then the rest of the loop if it goes on. */
  lemma StepsAt(t: Table, c: ConnId, name: string, input: seq<Read>, i: nat, broken: set<ConnId>)
    requires i < |input|
    ensures var e := Step(t, c, name, input[i], broken);
      Steps(t, c, name, input[i..], broken) == e.out + (if e.goOn then Steps(t, c, name, input[i + 1..], broken) else [])
  {
    assert input[i..][0] == input[i] && input[i..][1..] == input[i + 1..];
  }

  /** The output so far followed by the loop from read `i` is the output after read `i` followed by the rest. */
  lemma StepsAdvance(t: Table, c: ConnId, name: string, input: seq<Read>, i: nat, broken: set<ConnId>,
                     before: seq<Delivery>, after: seq<Delivery>)
    requires i < |input|
    requires after == before + Step(t, c, name, input[i], broken).out
    ensures before + Steps(t, c, name, input[i..], broken)
            == after + (if Step(t, c, name, input[i], broken).goOn then Steps(t, c, name, input[i + 1..], broken) else [])
  {
    StepsAt(t, c, name, input, i, broken);
    var e := Step(t, c, name, input[i], broken);
    var rest := if e.goOn then Steps(t, c, name, input[i + 1..], broken) else [];
    assert before + (e.out + rest) == (before + e.out) + rest;
  }

  /**
    What `handle_client` sends once client `c` is registered in `t` under `name`: the welcome (a failed
    send ends the session at once), the announcement to the others, and the loop.
   */
  function Served(t: Table, c: ConnId, name: string, joinDraw: Draw, input: seq<Read>, broken: set<ConnId>): seq<Delivery> {
    if c in broken then []
    else
      [Delivery(c, Welcome(name))]
      + Fanout(t, Some(c), broken, Decorate(Joined(name), joinDraw))
      + Steps(t, c, name, input, broken)
  }

  /** Everything `handle_client` sends for one connection: the client is registered under its name and served. */
  function Session(t: Table, c: ConnId, first: string, joinDraw: Draw, input: seq<Read>, broken: set<ConnId>): seq<Delivery> {
    var name := DisplayName(first);
    Served(Put(t, c, name), c, name, joinDraw, input, broken)
  }

  /** One pass sends only to the client itself or to registered sockets, and never to a socket whose send fails. */
  lemma StepRecipients(t: Table, c: ConnId, name: string, r: Read, broken: set<ConnId>, d: Delivery)
    requires d in Step(t, c, name, r, broken).out
    ensures d.to !in broken && (d.to == c || d.to in Keys(t))
  {
    match Classify(r.line)
    case Leaves =>
      FanoutRecipients(t, Some(c), broken, Decorate(Farewell(name), r.draw), d);
    case Chat =>
      FanoutRecipients(t, None, broken, Decorate(ChatLine(name, r.line), r.draw), d);
    case _ =>
  }

  /** The loop sends only to the client itself or to registered sockets, and never to a socket whose send fails. */
  lemma {:induction false} StepsRecipients(t: Table, c: ConnId, name: string, input: seq<Read>, broken: set<ConnId>, d: Delivery)
    requires d in Steps(t, c, name, input, broken)
    ensures d.to !in broken && (d.to == c || d.to in Keys(t))
    decreases |input|
  {
    var e := Step(t, c, name, input[0], broken);
    if d in e.out {
      StepRecipients(t, c, name, input[0], broken, d);
    } else {
      StepsRecipients(t, c, name, input[1..], broken, d);
    }
  }

  /** A session sends only to sockets registered once the client is, and never to one whose send fails. */
  lemma SessionRecipients(t: Table, c: ConnId, first: string, joinDraw: Draw, input: seq<Read>, broken: set<ConnId>, d: Delivery)
    requires d in Session(t, c, first, joinDraw, input, broken)
    ensures d.to !in broken && d.to in Keys(Put(t, c, DisplayName(first)))
  {
    var name := DisplayName(first);
    var t' := Put(t, c, name);
    PutKeys(t, c, name);
    var join := Fanout(t', Some(c), broken, Decorate(Joined(name), joinDraw));
    if d in join {
      FanoutRecipients(t', Some(c), broken, Decorate(Joined(name), joinDraw), d);
    } else if d in Steps(t', c, name, input, broken) {
      StepsRecipients(t', c, name, input, broken, d);
    }
  }

  /** The arrival is announced to every registered client but the newcomer whose send succeeds. */
  lemma SessionAnnouncesJoin(t: Table, c: ConnId, first: string, joinDraw: Draw, input: seq<Read>, broken: set<ConnId>, x: ConnId)
    requires c !in broken
    ensures var name := DisplayName(first);
      Delivery(x, Decorate(Joined(name), joinDraw)) in Session(t, c, first, joinDraw, input, broken)
      <== x in Keys(t) && x != c && x !in broken
  {
    var name := DisplayName(first);
    var d := Delivery(x, Decorate(Joined(name), joinDraw));
    PutKeys(t, c, name);
    FanoutRecipients(Put(t, c, name), Some(c), broken, Decorate(Joined(name), joinDraw), d);
  }

  /** A read that ends the loop: the empty read of a closed connection, or `@leaves`. */
  predicate Ends(r: Read) {
    r.line == "" || Classify(r.line) == Leaves
  }

  /** Nothing received after a read that ends the loop is handled. */
  lemma {:induction false} StepsIgnoreAfterEnd(t: Table, c: ConnId, name: string, input: seq<Read>, i: nat, more: seq<Read>, broken: set<ConnId>)
    requires i < |input| && Ends(input[i])
    ensures Steps(t, c, name, input[..i + 1] + more, broken) == Steps(t, c, name, input[..i + 1], broken)
    decreases i
  {
    var a := input[..i + 1] + more;
    var b := input[..i + 1];
    assert a[0] == b[0] == input[0];
    if i > 0 {
      assert a[1..] == input[1..][..i] + more;
      assert b[1..] == input[1..][..i];
      StepsIgnoreAfterEnd(t, c, name, input[1..], i - 1, more, broken);
    }
  }

  /** `@leaves` sends the farewell to exactly the other registered clients whose send succeeds, and ends the loop. */
  lemma StepsLeaves(t: Table, c: ConnId, name: string, r: Read, more: seq<Read>, broken: set<ConnId>, x: ConnId)
    requires Classify(r.line) == Leaves
    ensures Steps(t, c, name, [r] + more, broken) == Fanout(t, Some(c), broken, Decorate(Farewell(name), r.draw))
    ensures Delivery(x, Decorate(Farewell(name), r.draw)) in Steps(t, c, name, [r] + more, broken)
            <==> x in Keys(t) && x != c && x !in broken
  {
    assert r.line != "" by { ClassifyEmpty(); }
    assert ([r] + more)[0] == r;
    FanoutRecipients(t, Some(c), broken, Decorate(Farewell(name), r.draw), Delivery(x, Decorate(Farewell(name), r.draw)));
  }

  /** `@bamboo` and `@grove` answer the client alone, with one message, and the loop goes on; the fact is one of the five. */
  lemma StepDirectReply(t: Table, c: ConnId, name: string, r: Read, broken: set<ConnId>)
    requires r.line != "" && (Classify(r.line) == Bamboo || Classify(r.line) == Grove) && c !in broken
    ensures var e := Step(t, c, name, r, broken);
      && e.goOn && |e.out| == 1 && e.out[0].to == c
      && (Classify(r.line) == Bamboo ==> exists f :: f in PandaFacts && e.out[0].text == FactReply(f))
      && (Classify(r.line) == Grove ==> e.out[0].text == GroveReply(Values(t)))
  {
    if Classify(r.line) == Bamboo {
      assert PandaFacts[r.draw.fact] in PandaFacts;
    }
  }

  /** An empty read ends the loop with nothing sent: no farewell is broadcast for a dropped connection. */
  lemma StepsClosed(t: Table, c: ConnId, name: string, draw: Draw, more: seq<Read>, broken: set<ConnId>)
    ensures Steps(t, c, name, [Read("", draw)] + more, broken) == []
  {
    assert ([Read("", draw)] + more)[0] == Read("", draw);
  }

  /** A chat line is broadcast with `sender=None`, so the registered sender gets its own line back. */
  lemma StepsChatEcho(t: Table, c: ConnId, name: string, r: Read, more: seq<Read>, broken: set<ConnId>)
    requires r.line != "" && Classify(r.line) == Chat
    requires c in Keys(t) && c !in broken
    ensures Delivery(c, Decorate(ChatLine(name, r.line), r.draw)) in Steps(t, c, name, [r] + more, broken)
  {
    var text := Decorate(ChatLine(name, r.line), r.draw);
    assert ([r] + more)[0] == r && ([r] + more)[1..] == more;
    FanoutRecipients(t, None, broken, text, Delivery(c, text));
  }

  /** During its session a newly registered client finds its own name in the `@grove` reply. */
  lemma GroveListsSelf(t: Table, c: ConnId, name: string)
    requires c !in Keys(t)
    ensures exists k :: OccursAt(GroveReply(Values(Put(t, c, name))), name, k)
  {
    var names := Values(Put(t, c, name));
    PutValuesFresh(t, c, name);
    JoinLists(names, ", ", |names| - 1);
    var k :| OccursAt(Join(names, ", "), name, k);
    var prefix := "Current Pandas in the grove: ";
    var s := GroveReply(names);
    assert s == prefix + Join(names, ", ") + "\n";
    assert s[|prefix| + k..|prefix| + k + |name|] == Join(names, ", ")[k..k + |name|];
    assert OccursAt(s, name, |prefix| + k);
  }
}
