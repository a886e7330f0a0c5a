/** From one user's keyboard to another's screen: the two links and the server between them. */
module Chat {
  import opened Options
  import opened Bytes
  import opened Messages
  import Client
  import Envelope
  import Link
  import opened Server
  import ServerRuns
  import ServerSources

  /** The text of a message: as many bytes from the end of its body as its header says. */
  function Text(m: Msg): seq<byte>
    requires m.header.size <= |m.body|
  {
    m.body[|m.body| - m.header.size..]
  }

  /** A message small enough for its envelope's size field. */
  ghost predicate EnvelopeFits(x: Incoming<nat>) {
    && x.m.header.size <= |x.m.body| && x.m.header.size < TWO32 && x.id < TWO32
    && |x.m.body| + 4 + |Envelope.Label(x.id)| + 1 < TWO32
  }

  // ----- the first link: a client's messages reach the server's log

  /** Whatever old body an empty message arrives with, its text is the empty one it was sent with;
      every other message arrives as it was. */
  lemma {:induction false} TextSurvivesLink(ms: seq<Msg>, i: nat)
    requires i < |ms| && forall j :: 0 <= j < |ms| ==> Consistent(ms[j])
    ensures var m := Link.Delivered(ms)[i];
      m.header == ms[i].header && m.header.size <= |m.body| && Text(m) == ms[i].body
  {
    var before := ms[..|ms| - 1];
    if i < |before| {
      TextSurvivesLink(before, i);
    } else if ms[i].body == [] {
      assert Link.Stale(before)[|Link.Stale(before)|..] == [];
    } else {
      assert ms[i].body[0..] == ms[i].body;
    }
  }

  // ----- the second link: what the server wraps reaches another client's screen

  /** What the server sends on has the size its header says, so a link accepts it. */
  lemma WrappedIsConsistent(x: Incoming<nat>)
    requires EnvelopeFits(x)
    ensures Consistent(Wrapped(x)) && Wrapped(x).header.kind == TEXT_MESSAGE
  {
    Envelope.LabelFits(x.id);
  }

  lemma WrappedIsNotEmpty(x: Incoming<nat>)
    ensures Wrapped(x).body != []
  {
  }

  /** Envelopes are never empty, so the link delivers each as it was sent. */
  lemma EnvelopesArriveIntact(xs: seq<Incoming<nat>>, ms: seq<Msg>)
    requires |ms| == |xs| && forall j :: 0 <= j < |ms| ==> ms[j] == Wrapped(xs[j])
    ensures Link.Delivered(ms) == ms
  {
    hide Wrapped;
    forall j | 0 <= j < |ms| ensures ms[j].body != [] {
      WrappedIsNotEmpty(xs[j]);
    }
    Link.DeliveredFaithfulIff(ms);
  }

  lemma WrappedUnwraps(x: Incoming<nat>)
    requires EnvelopeFits(x)
    ensures Envelope.Unwrap(Wrapped(x).body) == Some((Envelope.Label(x.id), Text(x.m)))
  {
    Envelope.LabelFits(x.id);
    Envelope.UnwrapWrap(x.m, Envelope.Label(x.id));
  }

  /** End to end: run the server and, on connection k, the link to its client, in any way. The i-th
      message the client takes from its income queue shows the label and the text of the i-th
      message of the server's log that k hears. */
  lemma ScreenShowsTheLog(serverRun: seq<ServerRuns.Event>, s: ServerRuns.State, k: nat,
                          linkRun: seq<Link.Event>, l: Link.Link, i: nat)
    requires ServerRuns.Reaches(ServerRuns.INITIAL, serverRun, s) && k < |s.members|
    requires Link.Reaches(Link.INITIAL, linkRun, l) && l.log == s.members[k].accepted
    requires forall p :: 0 <= p < |s.log| ==> EnvelopeFits(s.log[p])
    requires i < |l.receiver.income|
    ensures |s.joined| == |s.members| && s.joined[k] <= ServerRuns.Until(s, k) <= |s.log|
    ensures var ps := ServerRuns.Hearing(s, k);
      && i < |ps| && ps[i] < |s.log| && s.log[ps[i]].sender != k && EnvelopeFits(s.log[ps[i]])
      && Envelope.Unwrap(l.receiver.income[i].body)
           == Some((Envelope.Label(s.log[ps[i]].id), Text(s.log[ps[i]].m)))
  {
    hide Wrapped, Link.Reaches, ServerRuns.Reaches, ServerRuns.Hearing, Envelope.Unwrap, Link.Delivered;
    ServerRuns.SentFromTheLog(serverRun, s, k);
    Link.FifoFraming(linkRun, l);
    var q, ps := |l.receiver.income|, ServerRuns.Hearing(s, k);
    EnvelopesArriveIntact(seq(q, j requires 0 <= j < q => s.log[ps[j]]), l.log[..q]);
    assert l.receiver.income[i] == l.log[..q][i] == Wrapped(s.log[ps[i]]);
    WrappedUnwraps(s.log[ps[i]]);
  }

  /** What the client has on its screen once it has drained its queue: line i is the label and the
      text of the i-th message of the log that k hears. */
  lemma ScreenIsTheLog(serverRun: seq<ServerRuns.Event>, s: ServerRuns.State, k: nat,
                       linkRun: seq<Link.Event>, l: Link.Link, i: nat)
    requires ServerRuns.Reaches(ServerRuns.INITIAL, serverRun, s) && k < |s.members|
    requires Link.Reaches(Link.INITIAL, linkRun, l) && l.log == s.members[k].accepted
    requires forall p :: 0 <= p < |s.log| ==> EnvelopeFits(s.log[p])
    requires i < |l.receiver.income|
    ensures Client.Readable(l.receiver.income) && |Client.Shown(l.receiver.income)| == |l.receiver.income|
    ensures |s.joined| == |s.members| && s.joined[k] <= ServerRuns.Until(s, k) <= |s.log|
    ensures i < |ServerRuns.Hearing(s, k)| && ServerRuns.Hearing(s, k)[i] < |s.log|
    ensures var x := s.log[ServerRuns.Hearing(s, k)[i]];
      EnvelopeFits(x) && Client.Shown(l.receiver.income)[i] == (Envelope.Label(x.id), Text(x.m))
  {
    hide Wrapped, Link.Reaches, ServerRuns.Reaches, ServerRuns.Hearing, Envelope.Unwrap, Link.Delivered, Client.Shown;
    var ms := l.receiver.income;
    forall j | 0 <= j < |ms|
      ensures Envelope.Unwrap(ms[j].body).Some? && ms[j].header.kind == TEXT_MESSAGE
    {
      ScreenShowsTheLog(serverRun, s, k, linkRun, l, j);
      OnlyText(serverRun, s, k, linkRun, l, j);
    }
    ScreenShowsTheLog(serverRun, s, k, linkRun, l, i);
    assert ms[..|ms|] == ms;
    Client.ShownAt(ms, |ms|, i);
  }

  lemma OnlyText(serverRun: seq<ServerRuns.Event>, s: ServerRuns.State, k: nat,
                 linkRun: seq<Link.Event>, l: Link.Link, i: nat)
    requires ServerRuns.Reaches(ServerRuns.INITIAL, serverRun, s) && k < |s.members|
    requires Link.Reaches(Link.INITIAL, linkRun, l) && l.log == s.members[k].accepted
    requires i < |l.receiver.income|
    ensures l.receiver.income[i].header.kind == TEXT_MESSAGE
  {
    hide Wrapped, Link.Reaches, ServerRuns.Reaches, ServerRuns.Hearing;
    ServerRuns.SentFromTheLog(serverRun, s, k);
    Link.FifoFraming(linkRun, l);
    DeliveredHeader(l.log[..|l.receiver.income|], i);
    WrappedIsText(s.log[ServerRuns.Hearing(s, k)[i]]);
  }

  lemma WrappedIsText(x: Incoming<nat>)
    ensures Wrapped(x).header.kind == TEXT_MESSAGE
  {
  }

  lemma {:induction false} DeliveredHeader(ms: seq<Msg>, i: nat)
    requires i < |ms|
    ensures Link.Delivered(ms)[i].header == ms[i].header
  {
    if i < |ms| - 1 {
      DeliveredHeader(ms[..|ms| - 1], i);
    }
  }

  // ----- both links

  /** Bodies that still fit an envelope's 32-bit size with label, size field and label length. */
  ghost predicate ShortBodies(ms: seq<Msg>) {
    forall i :: 0 <= i < |ms| ==> |ms[i].body| + 27 < TWO32
  }

  lemma {:induction false} DeliveredIsShort(ms: seq<Msg>)
    requires ShortBodies(ms)
    ensures ShortBodies(Link.Delivered(ms)) && |Link.Stale(ms)| + 27 < TWO32
  {
    if ms != [] {
      var n := |ms| - 1;
      assert ShortBodies(ms[..n]);
      DeliveredIsShort(ms[..n]);
      assert |ms[n].body| + 27 < TWO32;
    }
  }

  /** A client's link to the server, of whose deliveries these have arrived. */
  ghost predicate Arrives(run: seq<Link.Event>, client: Link.Link, arrived: seq<Msg>) {
    Link.Reaches(Link.INITIAL, run, client) && arrived <= client.receiver.income && ShortBodies(client.log)
  }

  /** What arrives on a link is a message sent on it: its text is the body sent. */
  lemma ArrivedWasSent(run: seq<Link.Event>, client: Link.Link, arrived: seq<Msg>, n: nat)
    requires Arrives(run, client, arrived) && n < |arrived|
    ensures n < |client.log| && |client.log[n].body| + 27 < TWO32 && |arrived[n].body| + 27 < TWO32
    ensures arrived[n].header.size == |client.log[n].body| <= |arrived[n].body| && Text(arrived[n]) == client.log[n].body
  {
    hide Link.Reaches, Link.Delivered;
    Link.FifoFraming(run, client);
    var q := |client.receiver.income|;
    SentIsConsistent(run, client);
    var sent := client.log[..q];
    assert ShortBodies(sent);
    DeliveredIsShort(sent);
    TextSurvivesLink(sent, n);
    assert arrived[n] == Link.Delivered(sent)[n];
  }

  lemma SentIsConsistent(run: seq<Link.Event>, client: Link.Link)
    requires Link.Reaches(Link.INITIAL, run, client)
    ensures forall i :: 0 <= i < |client.log| ==> Consistent(client.log[i])
  {
    Link.RunKeepsInv(Link.INITIAL, run, client);
  }

  /** The clients' ends: client j has sent what arrived from connection j. */
  ghost predicate AllArrive(runs: seq<seq<Link.Event>>, clients: seq<Link.Link>, serverRun: seq<ServerRuns.Event>) {
    |runs| == |clients| &&
    forall j :: 0 <= j < |clients| ==> Arrives(runs[j], clients[j], ServerSources.ArrivedFrom(serverRun, j))
  }

  /** Message p of the log is one that its sender's client sent, and it fits its envelope. */
  lemma LogWasSent(serverRun: seq<ServerRuns.Event>, s: ServerRuns.State, p: nat,
                   runs: seq<seq<Link.Event>>, clients: seq<Link.Link>)
    requires ServerRuns.Reaches(ServerRuns.INITIAL, serverRun, s) && p < |s.log|
    requires AllArrive(runs, clients, serverRun) && |clients| == |s.members|
    ensures EnvelopeFits(s.log[p]) && s.log[p].sender < |clients| && s.log[p].id == s.members[s.log[p].sender].id
    ensures var sent := clients[s.log[p].sender].log;
      var n := |ServerSources.OfSender(s.log[..p], s.log[p].sender)|;
      n < |sent| && Text(s.log[p].m) == sent[n].body
  {
    hide ServerRuns.Reaches, ServerSources.OfSender, ServerSources.ArrivedFrom, Arrives, Envelope.Label;
    ServerSources.LogFromArrivals(serverRun, s, p);
    var x := s.log[p];
    var n, j := |ServerSources.OfSender(s.log[..p], x.sender)|, x.sender;
    ArrivedWasSent(runs[j], clients[j], ServerSources.ArrivedFrom(serverRun, j), n);
    Envelope.LabelFits(x.id);
  }

  /** From one keyboard to another's screen: run the server, the links from all its clients and the link
      to client k in any way. Line i on k's screen is the label of a connection j other than k and the
      body that j's client sent: its n-th, when n of the messages before this one in the log are j's. */
  lemma ScreenShowsWhatWasSent(serverRun: seq<ServerRuns.Event>, s: ServerRuns.State, k: nat,
                               linkRun: seq<Link.Event>, l: Link.Link,
                               runs: seq<seq<Link.Event>>, clients: seq<Link.Link>, i: nat)
    requires ServerRuns.Reaches(ServerRuns.INITIAL, serverRun, s) && k < |s.members|
    requires Link.Reaches(Link.INITIAL, linkRun, l) && l.log == s.members[k].accepted
    requires AllArrive(runs, clients, serverRun) && |clients| == |s.members|
    requires i < |l.receiver.income|
    ensures Client.Readable(l.receiver.income) && |Client.Shown(l.receiver.income)| == |l.receiver.income|
    ensures |s.joined| == |s.members| && s.joined[k] <= ServerRuns.Until(s, k) <= |s.log|
    ensures i < |ServerRuns.Hearing(s, k)| && ServerRuns.Hearing(s, k)[i] < |s.log|
    ensures var p := ServerRuns.Hearing(s, k)[i];
      var j := s.log[p].sender;
      var n := |ServerSources.OfSender(s.log[..p], j)|;
      && j != k && j < |clients| && n < |clients[j].log|
      && Client.Shown(l.receiver.income)[i] == (Envelope.Label(s.members[j].id), clients[j].log[n].body)
  {
    hide Wrapped, Link.Reaches, ServerRuns.Reaches, ServerRuns.Hearing, Client.Shown, Client.Readable, AllArrive,
      EnvelopeFits, ServerSources.OfSender, Envelope.Label;
    forall p | 0 <= p < |s.log| ensures EnvelopeFits(s.log[p]) {
      LogWasSent(serverRun, s, p, runs, clients);
    }
    ScreenIsTheLog(serverRun, s, k, linkRun, l, i);
    ServerRuns.SentFromTheLog(serverRun, s, k);
    LogWasSent(serverRun, s, ServerRuns.Hearing(s, k)[i], runs, clients);
  }
}
