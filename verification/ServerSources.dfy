/** Where the server's log comes from: the messages that arrived from each connection, in their order. */
module ServerSources {
  import opened Bytes
  import opened Messages
  import opened Server
  import opened ServerRuns
  import Envelope

  /** The messages of connection j among these, oldest first. */
  function OfSender(xs: seq<Incoming<nat>>, j: nat): seq<Msg> {
    if xs == [] then []
    else OfSender(xs[..|xs| - 1], j) + if xs[|xs| - 1].sender == j then [xs[|xs| - 1].m] else []
  }

  /** What arrives from connection j in a run. */
  function ArrivedFrom(events: seq<Event>, j: nat): seq<Msg> {
    if events == [] then []
    else (if events[0].Receive? && events[0].k == j then [events[0].m] else []) + ArrivedFrom(events[1..], j)
  }

  /** Everything that arrives in a run, with the number of the connection it arrives from. */
  function Arrivals(events: seq<Event>): seq<(nat, Msg)> {
    if events == [] then []
    else (if events[0].Receive? then [(events[0].k, events[0].m)] else []) + Arrivals(events[1..])
  }

  function Pairs(xs: seq<Incoming<nat>>): (r: seq<(nat, Msg)>)
    ensures |r| == |xs| && forall i :: 0 <= i < |r| ==> r[i] == (xs[i].sender, xs[i].m)
  {
    seq(|xs|, i requires 0 <= i < |xs| => (xs[i].sender, xs[i].m))
  }

  lemma OfSenderExtend(xs: seq<Incoming<nat>>, x: Incoming<nat>, j: nat)
    ensures OfSender(xs + [x], j) == OfSender(xs, j) + if x.sender == j then [x.m] else []
  {
    assert (xs + [x])[..|xs|] == xs;
  }

  lemma {:induction false} OfSenderConcat(xs: seq<Incoming<nat>>, ys: seq<Incoming<nat>>, j: nat)
    ensures OfSender(xs + ys, j) == OfSender(xs, j) + OfSender(ys, j)
  {
    if ys == [] {
      assert xs + ys == xs;
    } else {
      var n := |ys| - 1;
      OfSenderConcat(xs, ys[..n], j);
      assert xs + ys == xs + ys[..n] + [ys[n]];
      OfSenderExtend(xs + ys[..n], ys[n], j);
    }
  }

  /** got is everything that arrived, as it was queued: the log, the message that ended the drain if one
      has, and what still waits. */
  ghost predicate Sourced(s: State, got: seq<Incoming<nat>>) {
    && s.log <= got && (!s.halted ==> got == s.log + s.income)
    && (s.halted ==> |s.log| < |got| && got == s.log + [got[|s.log|]] + s.income
                     && got[|s.log|].m.header.kind != TEXT_MESSAGE)
    && (forall i :: 0 <= i < |got| ==> got[i].sender < |s.members| && got[i].id == s.members[got[i].sender].id)
    && (forall k :: 0 <= k < |s.members| ==> s.members[k].id < TWO32)
  }

  function GotAfter(s: State, e: Event, got: seq<Incoming<nat>>): seq<Incoming<nat>>
    requires e.Receive? ==> e.k < |s.members|
  {
    if e.Receive? then got + [Incoming(e.k, s.members[e.k].id, e.m)] else got
  }

  lemma SourcedReceive(s: State, k: nat, m: Msg, got: seq<Incoming<nat>>)
    requires Inv(s) && Enabled(s, Receive(k, m)) && Sourced(s, got)
    ensures Sourced(After(s, Receive(k, m)), GotAfter(s, Receive(k, m), got))
  {
    hide Inv;
    var x := Incoming(k, s.members[k].id, m);
    assert s.log + s.income + [x] == s.log + (s.income + [x]);
    if s.halted {
      assert got + [x] == s.log + [got[|s.log|]] + (s.income + [x]);
    }
  }

  lemma SourcedProcess(s: State, got: seq<Incoming<nat>>)
    requires Inv(s) && Enabled(s, Process) && Sourced(s, got)
    ensures Sourced(After(s, Process), got)
  {
    hide Inv, OpenOnes, Wrapped, SomeoneHears;
    assert s.log + s.income == s.log + [s.income[0]] + s.income[1..];
  }

  lemma SourcedStep(s: State, e: Event, got: seq<Incoming<nat>>)
    requires Inv(s) && Enabled(s, e) && Sourced(s, got)
    ensures Sourced(After(s, e), GotAfter(s, e, got))
  {
    hide Accounted;
    match e {
      case Accept(open) =>
      case Close(k) =>
      case Receive(k, m) => SourcedReceive(s, k, m, got);
      case Process => SourcedProcess(s, got);
    }
  }

  lemma {:induction false} Trace(s: State, events: seq<Event>, s': State, got: seq<Incoming<nat>>)
    returns (got': seq<Incoming<nat>>)
    requires Inv(s) && Reaches(s, events, s') && Sourced(s, got)
    ensures Sourced(s', got') && Pairs(got') == Pairs(got) + Arrivals(events)
    ensures forall j :: OfSender(got', j) == OfSender(got, j) + ArrivedFrom(events, j)
    decreases |events|
  {
    hide Inv, Enabled, After, Sourced, OfSender;
    if events == [] {
      got' := got;
      assert Pairs(got) + [] == Pairs(got);
    } else {
      var e := events[0];
      StepKeepsInv(s, e);
      ReceiveIsKnown(s, e);
      SourcedStep(s, e, got);
      got' := Trace(After(s, e), events[1..], s', GotAfter(s, e, got));
      NextArrival(s, e, got, events);
      forall j ensures OfSender(got', j) == OfSender(got, j) + ArrivedFrom(events, j) {
        if e.Receive? {
          OfSenderExtend(got, Incoming(e.k, s.members[e.k].id, e.m), j);
        }
        OneArrival(OfSender(got, j), events, j);
      }
    }
  }

  lemma NextArrival(s: State, e: Event, got: seq<Incoming<nat>>, events: seq<Event>)
    requires events != [] && e == events[0] && (e.Receive? ==> e.k < |s.members|)
    ensures Pairs(GotAfter(s, e, got)) + Arrivals(events[1..]) == Pairs(got) + Arrivals(events)
  {
    if e.Receive? {
      assert Pairs(GotAfter(s, e, got)) == Pairs(got) + [(e.k, e.m)];
    }
  }

  lemma ReceiveIsKnown(s: State, e: Event)
    requires Enabled(s, e)
    ensures e.Receive? ==> e.k < |s.members|
  {
  }

  lemma OneArrival(before: seq<Msg>, events: seq<Event>, j: nat)
    requires events != []
    ensures before + ArrivedFrom(events, j)
         == before + (if events[0].Receive? && events[0].k == j then [events[0].m] else []) + ArrivedFrom(events[1..], j)
  {
  }

  lemma NothingArrived()
    ensures Inv(INITIAL) && Sourced(INITIAL, []) && forall j :: OfSender([], j) == []
  {
  }

  /** The p-th message of the log is the n-th that arrived from its sender, where n of the messages before
      it in the log are that sender's; it goes by the sender's id. */
  lemma LogFromArrivals(events: seq<Event>, s: State, p: nat)
    requires Reaches(INITIAL, events, s) && p < |s.log|
    ensures var x := s.log[p];
      var n := |OfSender(s.log[..p], x.sender)|;
      && x.sender < |s.members| && x.id == s.members[x.sender].id < TWO32
      && n < |ArrivedFrom(events, x.sender)| && ArrivedFrom(events, x.sender)[n] == x.m
  {
    NothingArrived();
    var got := Trace(INITIAL, events, s, []);
    hide Reaches, OfSender, ArrivedFrom;
    var x := s.log[p];
    assert s.log[..p] == got[..p] && got[p] == x;
    assert got == got[..p] + [x] + got[p + 1..];
    OfSenderConcat(got[..p] + [x], got[p + 1..], x.sender);
    OfSenderExtend(got[..p], x, x.sender);
    assert OfSender(got, x.sender) == [] + ArrivedFrom(events, x.sender) == ArrivedFrom(events, x.sender);
  }

  /** Nothing is lost and nothing overtakes: what arrived, from all connections together, is the log, then
      the message that ended the drain if one has, then what still waits. */
  lemma NothingLost(events: seq<Event>, s: State) returns (bad: seq<(nat, Msg)>)
    requires Reaches(INITIAL, events, s)
    ensures Arrivals(events) == Pairs(s.log) + bad + Pairs(s.income)
    ensures if s.halted then |bad| == 1 && bad[0].1.header.kind != TEXT_MESSAGE else bad == []
  {
    NothingArrived();
    var got := Trace(INITIAL, events, s, []);
    hide Reaches, Arrivals, Pairs, Sourced, Inv, OfSender, ArrivedFrom;
    NoPairs(Arrivals(events));
    bad := SourcedInPairs(s, got);
  }

  lemma SourcedInPairs(s: State, got: seq<Incoming<nat>>) returns (bad: seq<(nat, Msg)>)
    requires Sourced(s, got)
    ensures Pairs(got) == Pairs(s.log) + bad + Pairs(s.income)
    ensures if s.halted then |bad| == 1 && bad[0].1.header.kind != TEXT_MESSAGE else bad == []
  {
    hide Pairs;
    var x := if s.halted then [got[|s.log|]] else [];
    bad := Pairs(x);
    assert got == s.log + x + s.income;
    PairsConcat(s.log + x, s.income);
    PairsConcat(s.log, x);
  }

  lemma PairsConcat(xs: seq<Incoming<nat>>, ys: seq<Incoming<nat>>)
    ensures Pairs(xs + ys) == Pairs(xs) + Pairs(ys)
  {
  }

  lemma NoPairs(after: seq<(nat, Msg)>)
    ensures Pairs([]) + after == after
  {
  }

  // ----- who a label stands for

  ghost predicate Numbered(s: State) {
    && s.userId == (|s.members| + 1) % TWO32
    && forall k :: 0 <= k < |s.members| ==>
         s.members[k].id == (k + 1) % TWO32 || (s.members[k].id == 0 && !s.members[k].open)
  }

  lemma NumberedStep(s: State, e: Event)
    requires Inv(s) && Enabled(s, e) && Numbered(s)
    ensures Numbered(After(s, e))
  {
    hide Inv, OpenOnes, Wrapped, SomeoneHears;
    if e.Accept? {
      var n := |s.members| + 1;
      assert (n % TWO32 + 1) % TWO32 == (n + 1) % TWO32;
    }
  }

  lemma {:induction false} NumberedRun(s: State, events: seq<Event>, s': State)
    requires Inv(s) && Numbered(s) && Reaches(s, events, s')
    ensures Numbered(s')
    decreases |events|
  {
    hide Inv, Enabled, After, Numbered;
    if events != [] {
      StepKeepsInv(s, events[0]);
      NumberedStep(s, events[0]);
      NumberedRun(After(s, events[0]), events[1..], s');
    }
  }

  /** The connection accepted as number k, counted from 0, goes by k + 1, unless its peer was already gone.
      Among fewer than 2^32 - 1 connections no two open ones go by the same label, and none by the server's. */
  lemma LabelsTellApart(events: seq<Event>, s: State, k: nat, l: nat)
    requires Reaches(INITIAL, events, s) && k < |s.members| && l < |s.members|
    ensures s.members[k].open ==> s.members[k].id == (k + 1) % TWO32
    ensures |s.members| < TWO32 - 1 && s.members[k].open && s.members[l].open ==>
              Envelope.Label(s.members[k].id) != Envelope.Label(0)
              && (k != l ==> Envelope.Label(s.members[k].id) != Envelope.Label(s.members[l].id))
  {
    hide Envelope.Label, Reaches;
    NothingArrived();
    NumberedRun(INITIAL, events, s);
    var a, b := s.members[k].id, s.members[l].id;
    if Envelope.Label(a) == Envelope.Label(b) {
      Envelope.LabelInjective(a, b);
    }
    if Envelope.Label(a) == Envelope.Label(0) {
      Envelope.LabelInjective(a, 0);
    }
  }
}
