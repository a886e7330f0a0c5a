/** The server: its connections, the drain of the income queue and the broadcast. */
module Server {
  import opened Bytes
  import opened Messages
  import opened Connections
  import Envelope

  // ----- the broadcast as a function on what the server knows of its clients

  /** A connection as the broadcast sees it; accepted is everything SendMessage took for it. */
  datatype Client<K> = Client(key: K, id: nat, open: bool, accepted: seq<Msg>)

  predicate Hears<K(==)>(c: Client<K>, sender: K) {
    c.key != sender && c.open
  }

  function Told<K(==)>(c: Client<K>, sender: K, m: Msg): Client<K> {
    if Hears(c, sender) then c.(accepted := c.accepted + [m]) else c
  }

  function AllTold<K(==)>(cs: seq<Client<K>>, sender: K, m: Msg): (r: seq<Client<K>>)
    ensures |r| == |cs| && forall i :: 0 <= i < |cs| ==> r[i] == Told(cs[i], sender, m)
  {
    seq(|cs|, i requires 0 <= i < |cs| => Told(cs[i], sender, m))
  }

  /** The connections that stay when the disconnected ones are cleared away. */
  function StillOpen<K>(cs: seq<Client<K>>): seq<Client<K>> {
    if cs == [] then []
    else StillOpen(cs[..|cs| - 1]) + if cs[|cs| - 1].open then [cs[|cs| - 1]] else []
  }

  ghost predicate SomeoneHears<K>(cs: seq<Client<K>>, sender: K) {
    exists i :: 0 <= i < |cs| && Hears(cs[i], sender)
  }

  /** Clearing follows a broadcast exactly when it reached someone. */
  ghost function AfterBroadcast<K>(cs: seq<Client<K>>, sender: K, m: Msg): seq<Client<K>> {
    var told := AllTold(cs, sender, m);
    if SomeoneHears(cs, sender) then StillOpen(told) else told
  }

  /** A message in the income queue, with the sender and the id it goes by. */
  datatype Incoming<K> = Incoming(sender: K, id: nat, m: Msg)

  function Wrapped<K>(x: Incoming<K>): Msg {
    Envelope.Wrap(x.m, Envelope.Label(x.id))
  }

  /** What the client with key k is sent while these messages are processed. */
  function Heard<K(==)>(xs: seq<Incoming<K>>, k: K): seq<Msg> {
    if xs == [] then []
    else Heard(xs[..|xs| - 1], k) + if xs[|xs| - 1].sender != k then [Wrapped(xs[|xs| - 1])] else []
  }

  lemma HeardExtend<K>(xs: seq<Incoming<K>>, x: Incoming<K>, k: K)
    ensures Heard(xs + [x], k) == Heard(xs, k) + if x.sender != k then [Wrapped(x)] else []
  {
    assert (xs + [x])[..|xs|] == xs;
  }

  /** The connections after the queue has been worked off, up to the first message of another type. */
  ghost function Drained<K>(cs: seq<Client<K>>, xs: seq<Incoming<K>>): seq<Client<K>>
    decreases |xs|
  {
    if xs == [] || xs[0].m.header.kind != TEXT_MESSAGE then cs
    else Drained(AfterBroadcast(cs, xs[0].sender, Wrapped(xs[0])), xs[1..])
  }

  ghost predicate AllText<K>(xs: seq<Incoming<K>>) {
    forall i :: 0 <= i < |xs| ==> xs[i].m.header.kind == TEXT_MESSAGE
  }

  // ----- the class

  ghost function View(c: Connection): Client<Connection>
    reads c
  {
    Client(c, c.connectionId, c.socketOpen, c.accepted)
  }

  ghost function Views(cs: seq<Connection>): (r: seq<Client<Connection>>)
    reads cs
    ensures |r| == |cs| && forall i :: 0 <= i < |cs| ==> r[i] == View(cs[i])
  {
    seq(|cs|, i requires 0 <= i < |cs| reads cs => View(cs[i]))
  }

  /** Of these messages n have been handled, and working off the others ends as working off all does. */
  ghost predicate Draining<K>(start: seq<Client<K>>, now: seq<Client<K>>, xs: seq<Incoming<K>>, n: nat) {
    n <= |xs| && Drained(now, xs[n..]) == Drained(start, xs) && (AllText(xs) <==> AllText(xs[n..]))
  }

  lemma DrainBegins<K>(cs: seq<Client<K>>, xs: seq<Incoming<K>>)
    ensures Draining(cs, cs, xs, 0)
  {
    assert xs[0..] == xs;
  }

  lemma DrainGoesOn<K>(start: seq<Client<K>>, now: seq<Client<K>>, xs: seq<Incoming<K>>, n: nat)
    requires Draining(start, now, xs, n)
    ensures n == |xs| ==> now == Drained(start, xs) && AllText(xs)
    ensures n < |xs| && xs[n].m.header.kind != TEXT_MESSAGE ==> now == Drained(start, xs) && !AllText(xs)
    ensures n < |xs| && xs[n].m.header.kind == TEXT_MESSAGE ==>
              Draining(start, AfterBroadcast(now, xs[n].sender, Wrapped(xs[n])), xs, n + 1)
  {
    hide AfterBroadcast, Wrapped;
    if n < |xs| {
      assert xs[n..][1..] == xs[n + 1..];
      assert xs[n..] == [xs[n]] + xs[n + 1..];
    }
  }

  lemma StillOpenNone<K>(cs: seq<Client<K>>)
    ensures StillOpen(cs[..0]) == []
  {
  }

  lemma StillOpenStep<K>(cs: seq<Client<K>>, i: nat)
    requires i < |cs|
    ensures StillOpen(cs[..i + 1]) == StillOpen(cs[..i]) + if cs[i].open then [cs[i]] else []
  {
    assert cs[..i + 1][..i] == cs[..i];
  }

  /** Clearing goes through the list connection by connection: an open one stays, the others go. */
  lemma {:induction false} StillOpenAppends<K>(a: seq<Client<K>>, b: seq<Client<K>>)
    ensures StillOpen(a + b) == StillOpen(a) + StillOpen(b)
    ensures |b| == 1 ==> StillOpen(b) == if b[0].open then b else []
  {
    if b == [] {
      assert a + b == a;
      assert StillOpen(a) + [] == StillOpen(a);
    } else {
      var n := |b| - 1;
      StillOpenAppends(a, b[..n]);
      assert (a + b)[..|a + b| - 1] == a + b[..n];
      StillOpenNone(b);
      if n == 0 {
        assert b[..n] == [];
      }
    }
  }

  lemma ViewsExtend(cs: seq<Connection>, c: Connection)
    ensures Views(cs + [c]) == Views(cs) + [View(c)]
  {
  }

  ghost predicate Among(a: seq<Connection>, b: seq<Connection>) {
    forall i :: 0 <= i < |a| ==> a[i] in b
  }

  /** The list holds the open ones among these connections and no others. */
  ghost predicate OnlyOpen(list: seq<Connection>, all: seq<Connection>)
    reads list`socketOpen, all`socketOpen
  {
    && (forall c :: c in list ==> c in all && c.socketOpen)
    && (forall c :: c in all && c.socketOpen ==> c in list)
  }

  lemma {:induction false} StillOpenHas<K>(cs: seq<Client<K>>, c: Client<K>)
    ensures c in StillOpen(cs) <==> c in cs && c.open
  {
    if cs != [] {
      var n := |cs| - 1;
      StillOpenHas(cs[..n], c);
      assert cs == cs[..n] + [cs[n]];
    }
  }

  lemma KeptAreOpen(kept: seq<Connection>, all: seq<Connection>)
    requires Views(kept) == StillOpen(Views(all))
    ensures OnlyOpen(kept, all)
  {
    hide StillOpen;
    forall c | c in kept ensures c in all && c.socketOpen {
      var k :| 0 <= k < |kept| && kept[k] == c;
      assert Views(kept)[k] == View(c);
      StillOpenHas(Views(all), View(c));
      var i :| 0 <= i < |all| && Views(all)[i] == View(c);
    }
    forall c | c in all && c.socketOpen ensures c in kept {
      var i :| 0 <= i < |all| && all[i] == c;
      assert Views(all)[i] == View(c);
      StillOpenHas(Views(all), View(c));
      var k :| 0 <= k < |kept| && Views(kept)[k] == View(c);
    }
  }

  /** One of these connections is open and is not the sender. */
  ghost predicate GoesOut(all: seq<Connection>, sender: Connection)
    reads all`socketOpen
  {
    exists i :: 0 <= i < |all| && all[i] != sender && all[i].socketOpen
  }

  /** One of these messages reaches one of these connections. */
  ghost predicate AnyGoesOut(all: seq<Connection>, xs: seq<Incoming<Connection>>)
    reads all`socketOpen
  {
    exists i :: 0 <= i < |xs| && GoesOut(all, xs[i].sender)
  }

  ghost predicate Distinct(cs: seq<Connection>) {
    forall i, j :: 0 <= i < j < |cs| ==> cs[i] != cs[j]
  }

  lemma DistinctAt(cs: seq<Connection>, i: nat)
    requires Distinct(cs) && i < |cs|
    ensures forall k :: 0 <= k < |cs| && k != i ==> cs[k] != cs[i]
  {
  }

  lemma AmongTrans(a: seq<Connection>, b: seq<Connection>, c: seq<Connection>)
    requires Among(a, b) && Among(b, c)
    ensures Among(a, c)
  {
  }

  /** Each of these connections that is open and not the sender was sent m, the others nothing. */
  ghost predicate SentOne(all: seq<Connection>, was: seq<Client<Connection>>, sender: Connection, m: Msg)
    requires |was| == |all|
    reads all`accepted, all`socketOpen
  {
    forall i :: 0 <= i < |all| ==>
      all[i].accepted == was[i].accepted + if all[i] != sender && all[i].socketOpen then [m] else []
  }

  lemma ToldIsSent(all: seq<Connection>, before: seq<Client<Connection>>, sender: Connection, m: Msg)
    requires |before| == |all| && Views(all) == AllTold(before, sender, m)
    ensures SentOne(all, before, sender, m)
    ensures GoesOut(all, sender) <==> SomeoneHears(before, sender)
  {
    forall i | 0 <= i < |all|
      ensures all[i].accepted == before[i].accepted + if all[i] != sender && all[i].socketOpen then [m] else []
    {
      assert View(all[i]) == Views(all)[i] == Told(before[i], sender, m);
    }
    if GoesOut(all, sender) {
      var i :| 0 <= i < |all| && all[i] != sender && all[i].socketOpen;
      assert View(all[i]) == Views(all)[i] == Told(before[i], sender, m);
      assert Hears(before[i], sender);
    }
    if SomeoneHears(before, sender) {
      var i :| 0 <= i < |before| && Hears(before[i], sender);
      assert View(all[i]) == Views(all)[i] == Told(before[i], sender, m);
    }
  }

  /** Since they had accepted this much, the open ones were sent the others' among these messages. */
  ghost predicate SentSince(all: seq<Connection>, was: seq<Client<Connection>>, xs: seq<Incoming<Connection>>)
    requires |was| == |all|
    reads all`accepted, all`socketOpen
  {
    forall i :: 0 <= i < |all| ==>
      all[i].accepted == was[i].accepted + if all[i].socketOpen then Heard(xs, all[i]) else []
  }

  /** What a drain has done once it has handled these messages: all are text messages, the open ones
      among the connections it began with were sent them, and the closed ones were cleared away if
      any message went out. */
  ghost predicate Handled(all: seq<Connection>, was: seq<Client<Connection>>, list: seq<Connection>, xs: seq<Incoming<Connection>>)
    reads all`accepted, all`socketOpen, list`socketOpen
  {
    && AllText(xs)
    && |was| == |all|
    && SentSince(all, was, xs)
    && if AnyGoesOut(all, xs) then OnlyOpen(list, all) else list == all
  }

  lemma NoneHandled(all: seq<Connection>, xs: seq<Incoming<Connection>>)
    ensures Handled(all, Views(all), all, xs[..0])
  {
  }

  lemma GoesOutAlike(all: seq<Connection>, list: seq<Connection>, sender: Connection)
    requires OnlyOpen(list, all) || list == all
    ensures GoesOut(all, sender) <==> GoesOut(list, sender)
  {
    if GoesOut(all, sender) {
      var i :| 0 <= i < |all| && all[i] != sender && all[i].socketOpen;
      var k :| 0 <= k < |list| && list[k] == all[i];
    }
    if GoesOut(list, sender) {
      var i :| 0 <= i < |list| && list[i] != sender && list[i].socketOpen;
      var k :| 0 <= k < |all| && all[k] == list[i];
    }
  }

  lemma OpenOnesListed(all: seq<Connection>, list: seq<Connection>, xs: seq<Incoming<Connection>>)
    requires if AnyGoesOut(all, xs) then OnlyOpen(list, all) else list == all
    ensures forall i :: 0 <= i < |all| && all[i].socketOpen ==> all[i] in list
  {
  }

  /** Those that are no longer in the list are closed and stay as they are. */
  lemma SentToAll(all: seq<Connection>, mid: seq<Client<Connection>>, list: seq<Connection>, was: seq<Client<Connection>>,
                  sender: Connection, m: Msg)
    requires |mid| == |all| && |was| == |list| && SentOne(list, was, sender, m)
    requires forall i :: 0 <= i < |all| && all[i].socketOpen ==> all[i] in list
    requires forall i :: 0 <= i < |all| && all[i] !in list ==> all[i].accepted == mid[i].accepted
    requires forall i, k :: 0 <= i < |all| && 0 <= k < |list| && all[i] == list[k] ==> mid[i] == was[k]
    ensures SentOne(all, mid, sender, m)
  {
    forall i | 0 <= i < |all|
      ensures all[i].accepted == mid[i].accepted + if all[i] != sender && all[i].socketOpen then [m] else []
    {
      if all[i] in list {
        var k :| 0 <= k < |list| && list[k] == all[i];
      }
    }
  }

  /** Clearing again leaves the same connections, and one that was cleared is not sent to. */
  lemma OneMoreHandled(all: seq<Connection>, was: seq<Client<Connection>>, mid: seq<Client<Connection>>, before: seq<Connection>,
                       after: seq<Connection>, xs: seq<Incoming<Connection>>, n: nat)
    requires n < |xs| && AllText(xs[..n]) && xs[n].m.header.kind == TEXT_MESSAGE && |was| == |mid| == |all|
    requires forall i :: 0 <= i < |all| ==>
               mid[i].accepted == was[i].accepted + if all[i].socketOpen then Heard(xs[..n], all[i]) else []
    requires SentOne(all, mid, xs[n].sender, Wrapped(xs[n]))
    requires if AnyGoesOut(all, xs[..n]) then OnlyOpen(before, all) else before == all
    requires if GoesOut(before, xs[n].sender) then OnlyOpen(after, before) else after == before
    ensures Handled(all, was, after, xs[..n + 1])
  {
    hide Heard, Wrapped;
    assert xs[..n + 1] == xs[..n] + [xs[n]];
    GoesOutAlike(all, before, xs[n].sender);
    forall i | 0 <= i < |all|
      ensures all[i].accepted == was[i].accepted + if all[i].socketOpen then Heard(xs[..n + 1], all[i]) else []
    {
      HeardExtend(xs[..n], xs[n], all[i]);
    }
  }

  lemma OneFewer(x: int)
    requires x > 0
    ensures (x % TWO32 + TWO32 - 1) % TWO32 == (x - 1) % TWO32
  {
  }

  datatype UpdateResult = Completed | BadFunctionCall

  /** The drain has handled n messages of the queue: all of it, or up to one without a handler, which is gone too. */
  ghost predicate StoppedAt(queue: seq<LinkedMessage>, n: nat, left: seq<LinkedMessage>, r: UpdateResult) {
    if r.Completed? then n == |queue| && left == []
    else n < |queue| && queue[n].message.header.kind != TEXT_MESSAGE && left == queue[n + 1..]
  }

  class MyServer {
    var usersCount: nat
    var userId: nat
    var connections: seq<Connection>
    const income: ThreadSafeQueue<LinkedMessage>

    ghost predicate Valid()
      reads this
    {
      Distinct(connections) && usersCount == |connections| % TWO32 && userId < TWO32
    }

    ghost function Clients(): seq<Client<Connection>>
      reads this, connections
    {
      Views(connections)
    }

    /** The income queue as the broadcast sees it. */
    ghost function Queue(): (r: seq<Incoming<Connection>>)
      reads this, income, set x | x in income.tsq :: x.connection
      ensures |r| == |income.tsq|
      ensures forall i :: 0 <= i < |r| ==>
                r[i] == Incoming(income.tsq[i].connection, income.tsq[i].connection.connectionId, income.tsq[i].message)
    {
      seq(|income.tsq|, i requires 0 <= i < |income.tsq| reads this, income, set x | x in income.tsq :: x.connection =>
        Incoming(income.tsq[i].connection, income.tsq[i].connection.connectionId, income.tsq[i].message))
    }

    constructor ()
      ensures Valid() && Clients() == [] && userId == 1 && income.tsq == []
    {
      usersCount, userId, connections := 0, 1, [];
      income := new ThreadSafeQueue();
    }

    /** A socket whose peer is already gone gets no id and is not read from. */
    method AddNewConnection(open: bool) returns (conn: Connection)
      requires Valid()
      modifies this
      ensures Valid() && fresh(conn) && fresh(conn.outcome) && conn.income == income
      ensures connections == old(connections) + [conn] && userId == (old(userId) + 1) % TWO32
      ensures View(conn) == Client(conn, if open then old(userId) else 0, open, [])
      ensures conn.readOp == if open then HeaderIn else NotReading
    {
      conn := new Connection(open, income);
      connections := connections + [conn];
      usersCount := (usersCount + 1) % TWO32;
      if conn.IsConnected() {
        conn.connectionId := userId;
        conn.ReadMessageHeader();
      }
      userId := (userId + 1) % TWO32;
    }

    /** True when the message was handed to the connection. */
    method SendToClient(message: Msg, client: Connection, senderId: nat) returns (sent: bool)
      modifies client`posted, client`accepted
      ensures sent == client.socketOpen
      ensures client.accepted == old(client.accepted)
              + if sent then [Envelope.Wrap(message, Envelope.Label(senderId))] else []
      ensures client.SendSide() == if sent then Posted(old(client.SendSide()), Envelope.Wrap(message, Envelope.Label(senderId)))
                                   else old(client.SendSide())
    {
      if client.IsConnected() {
        var msg := Envelope.MakeMessageToClient(message, Envelope.Label(senderId));
        client.SendMessage(msg);
        return true;
      }
      return false;
    }

    method SendToAllClients(message: LinkedMessage)
      requires Valid()
      modifies this`connections, this`usersCount, connections`posted, connections`accepted
      ensures Valid() && Among(connections, old(connections))
      ensures Clients() == AfterBroadcast(old(Clients()), message.connection,
                Wrapped(Incoming(message.connection, message.connection.connectionId, message.message)))
      ensures SentOne(old(connections), old(Clients()), message.connection,
                Envelope.Wrap(message.message, Envelope.Label(message.connection.connectionId)))
      ensures if GoesOut(old(connections), message.connection) then OnlyOpen(connections, old(connections))
              else connections == old(connections)
    {
      hide Envelope.Wrap, Envelope.Label, StillOpen, Distinct, AllTold, SentOne, OnlyOpen, GoesOut;
      ghost var sender := message.connection;
      ghost var m := Envelope.Wrap(message.message, Envelope.Label(sender.connectionId));
      ghost var before := Clients();
      var hasDisconnected := false;
      for i := 0 to |connections|
        invariant connections == old(connections) && usersCount == old(usersCount)
        invariant forall k :: 0 <= k < |connections| ==>
                    View(connections[k]) == if k < i then Told(before[k], sender, m) else before[k]
        invariant hasDisconnected <==> exists k :: 0 <= k < i && Hears(before[k], sender)
      {
        var conn := connections[i];
        DistinctAt(connections, i);
        if conn != message.connection {
          var sent := SendToClient(message.message, conn, message.connection.connectionId);
          hasDisconnected := hasDisconnected || sent;
        }
      }
      assert Clients() == AllTold(before, sender, m);
      assert hasDisconnected <==> SomeoneHears(before, sender);
      assert Valid();
      ToldIsSent(connections, before, sender, m);
      hide SomeoneHears;
      if hasDisconnected {
        ClearDisconnectedClients();
      }
    }

    method ClearDisconnectedClients()
      requires Valid()
      modifies this`connections, this`usersCount
      ensures Valid() && Clients() == StillOpen(old(Clients()))
      ensures Among(connections, old(connections)) && OnlyOpen(connections, old(connections))
    {
      hide StillOpen, OnlyOpen;
      ghost var before, all := Clients(), connections;
      StillOpenNone(before);
      var kept: seq<Connection> := [];
      for i := 0 to |connections|
        invariant connections == all && |kept| <= i
        invariant usersCount == (|all| - (i - |kept|)) % TWO32
        invariant forall k :: 0 <= k < |kept| ==> kept[k] in all[..i]
        invariant forall a, b :: 0 <= a < b < |kept| ==> kept[a] != kept[b]
        invariant Views(kept) == StillOpen(before[..i])
      {
        StillOpenStep(before, i);
        assert all[..i + 1] == all[..i] + [all[i]];
        if !connections[i].IsConnected() {
          OneFewer(|all| - (i - |kept|));
          usersCount := (usersCount + TWO32 - 1) % TWO32;
        } else {
          ViewsExtend(kept, all[i]);
          kept := kept + [connections[i]];
        }
      }
      assert before[..|all|] == before;
      KeptAreOpen(kept, all);
      connections := kept;
    }

    /** The handler for text messages. Of the messages xs that a drain handles this is number n; the
        connections in the list when it began are all, and had accepted was. */
    method HandleText(message: LinkedMessage, ghost all: seq<Connection>, ghost was: seq<Client<Connection>>,
                      ghost xs: seq<Incoming<Connection>>, ghost n: nat)
      requires Valid() && Among(connections, all)
      requires n < |xs| && xs[n].m.header.kind == TEXT_MESSAGE
      requires xs[n] == Incoming(message.connection, message.connection.connectionId, message.message)
      requires Handled(all, was, connections, xs[..n])
      modifies this`connections, this`usersCount, connections`posted, connections`accepted
      ensures Valid() && Among(connections, all)
      ensures Clients() == AfterBroadcast(old(Clients()), xs[n].sender, Wrapped(xs[n]))
      ensures Handled(all, was, connections, xs[..n + 1])
    {
      hide AfterBroadcast, Views, AllText, Distinct, Heard, OnlyOpen, GoesOut, AnyGoesOut, SentOne, Envelope.Wrap, Envelope.Label;
      ghost var now, mid := connections, Views(all);
      assert forall i :: 0 <= i < |all| ==> mid[i].accepted == was[i].accepted + if all[i].socketOpen then Heard(xs[..n], all[i]) else [];
      OpenOnesListed(all, now, xs[..n]);
      ghost var listed := Views(now);
      SendToAllClients(message);
      AmongTrans(connections, now, all);
      SentToAll(all, mid, now, listed, message.connection, Wrapped(xs[n]));
      OneMoreHandled(all, was, mid, now, connections, xs, n);
    }

    /** Drains the income queue; a type without a handler ends the drain with an exception. The first n
        messages are handled: an open connection is sent the others' among them, a closed one none. */
    method Update() returns (r: UpdateResult, ghost n: nat)
      requires Valid()
      modifies this`connections, this`usersCount, connections`posted, connections`accepted, income
      ensures Valid()
      ensures Clients() == Drained(old(Clients()), old(Queue()))
      ensures r.Completed? <==> AllText(old(Queue()))
      ensures n <= |old(Queue())| && Handled(old(connections), old(Clients()), connections, old(Queue())[..n])
      ensures StoppedAt(old(income.tsq), n, income.tsq, r)
    {
      hide Drained, Draining, AfterBroadcast, Views, Wrapped, AllText, Distinct, Handled, Queue;
      ghost var queue, xs, all, start := income.tsq, Queue(), connections, Clients();
      n := 0;
      DrainBegins(start, xs);
      NoneHandled(all, xs);
      assert start == Views(all);
      hide Clients;
      while true
        invariant Valid()
        invariant Among(connections, all)
        invariant n <= |xs| && income.tsq == queue[n..]
        invariant Draining(start, Clients(), xs, n)
        invariant Handled(all, start, connections, xs[..n])
        decreases |income.tsq|
      {
        DrainGoesOn(start, Clients(), xs, n);
        var size := income.Size();
        if size == 0 {
          return Completed, n;
        }
        var msg := income.Front();
        income.Pop();
        assert xs[n] == Incoming(msg.connection, msg.connection.connectionId, msg.message);
        if msg.message.header.kind != TEXT_MESSAGE {
          return BadFunctionCall, n;
        }
        ghost var next := AfterBroadcast(Clients(), xs[n].sender, Wrapped(xs[n]));
        HandleText(msg, all, start, xs, n);
        assert Clients() == next;
        n := n + 1;
      }
    }
  }
}
