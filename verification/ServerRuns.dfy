/** Every run of the server: accepts, closes, arrivals and processed messages in any order. */
module ServerRuns {
  import opened Bytes
  import opened Messages
  import opened Server

  /** members: every connection ever accepted, by number. listed: those in the server's list.
      log: the text messages processed, oldest first. joined and closed: how long the log was when
      a connection was accepted and when its socket closed. */
  datatype State = State(members: seq<Client<nat>>, listed: seq<nat>, income: seq<Incoming<nat>>,
                         log: seq<Incoming<nat>>, joined: seq<nat>, closed: map<nat, nat>, userId: nat, halted: bool)

  ghost const INITIAL := State([], [], [], [], [], map[], 1, false)

  datatype Event = Accept(open: bool) | Close(k: nat) | Receive(k: nat, m: Msg) | Process

  ghost predicate Enabled(s: State, e: Event) {
    match e
    case Accept(_) => true
    case Close(k) => k < |s.members| && s.members[k].open
    case Receive(k, m) => k < |s.members|
    case Process => s.income != [] && !s.halted
  }

  /** The list with the disconnected ones cleared away. */
  function OpenOnes(members: seq<Client<nat>>, listed: seq<nat>): (r: seq<nat>)
    requires forall i :: 0 <= i < |listed| ==> listed[i] < |members|
  {
    if listed == [] then []
    else
      var k := listed[|listed| - 1];
      OpenOnes(members, listed[..|listed| - 1]) + if members[k].open then [k] else []
  }

  ghost function After(s: State, e: Event): State
    requires Inv(s) && Enabled(s, e)
  {
    match e
    case Accept(open) =>
      var k := |s.members|;
      s.(members := s.members + [Client(k, if open then s.userId else 0, open, [])], listed := s.listed + [k],
         joined := s.joined + [|s.log|], closed := if open then s.closed else s.closed[k := |s.log|],
         userId := (s.userId + 1) % TWO32)
    case Close(k) =>
      s.(members := s.members[k := s.members[k].(open := false)], closed := s.closed[k := |s.log|])
    case Receive(k, m) =>
      s.(income := s.income + [Incoming(k, s.members[k].id, m)])
    case Process =>
      var x := s.income[0];
      if x.m.header.kind != TEXT_MESSAGE then s.(income := s.income[1..], halted := true)
      else s.(income := s.income[1..], log := s.log + [x],
              members := AllTold(s.members, x.sender, Wrapped(x)),
              listed := if SomeoneHears(s.members, x.sender) then OpenOnes(s.members, s.listed) else s.listed)
  }

  // ----- who hears what

  /** The end of the stretch of the log that connection k hears. */
  function Until(s: State, k: nat): nat {
    if k in s.closed then s.closed[k] else |s.log|
  }

  ghost predicate Accounted(s: State, k: nat)
    requires k < |s.members| == |s.joined|
  {
    && s.members[k].key == k
    && (s.members[k].open <==> k !in s.closed)
    && s.joined[k] <= Until(s, k) <= |s.log|
    && s.members[k].accepted == Heard(s.log[s.joined[k]..Until(s, k)], k)
  }

  ghost predicate Inv(s: State) {
    && |s.members| == |s.joined|
    && (forall k :: 0 <= k < |s.members| ==> Accounted(s, k))
    && (forall i :: 0 <= i < |s.listed| ==> s.listed[i] < |s.members|)
    && (forall i, j :: 0 <= i < j < |s.listed| ==> s.listed[i] != s.listed[j])
    && (forall k :: 0 <= k < |s.members| && s.members[k].open ==> k in s.listed)
    && (forall k :: k in s.closed ==> k < |s.members|)
    && s.userId < TWO32
  }

  // ----- the invariant over every run

  lemma OpenOnesAre(members: seq<Client<nat>>, listed: seq<nat>)
    requires forall i :: 0 <= i < |listed| ==> listed[i] < |members|
    requires forall i, j :: 0 <= i < j < |listed| ==> listed[i] != listed[j]
    ensures var r := OpenOnes(members, listed);
      && (forall i :: 0 <= i < |r| ==> r[i] in listed && members[r[i]].open)
      && (forall i, j :: 0 <= i < j < |r| ==> r[i] != r[j])
      && (forall k :: k in listed && members[k].open ==> k in r)
  {
    if listed != [] {
      var n := |listed| - 1;
      OpenOnesAre(members, listed[..n]);
      var before := OpenOnes(members, listed[..n]);
      assert listed == listed[..n] + [listed[n]];
      assert listed[n] !in before;
    }
  }

  lemma ProcessAccounts(s: State, k: nat)
    requires Inv(s) && Enabled(s, Process) && k < |s.members|
    ensures Accounted(After(s, Process), k)
  {
    hide Wrapped, OpenOnes, SomeoneHears, Heard;
    var x, j := s.income[0], s.joined[k];
    assert Accounted(s, k);
    if x.m.header.kind == TEXT_MESSAGE {
      var log := s.log + [x];
      if s.members[k].open {
        assert log[j..|log|] == s.log[j..|s.log|] + [x];
        HeardExtend(s.log[j..|s.log|], x, k);
      } else {
        assert log[j..Until(s, k)] == s.log[j..Until(s, k)];
      }
    }
  }

  lemma AcceptKeepsInv(s: State, open: bool)
    requires Inv(s)
    ensures Inv(After(s, Accept(open)))
  {
    hide Heard;
    var s' := After(s, Accept(open));
    HeardNothing(s.log, |s.log|, |s.members|);
    forall k | 0 <= k < |s'.members| ensures Accounted(s', k) {
      assert k < |s.members| ==> Accounted(s, k);
    }
    assert s'.listed[|s.listed|] == |s.members|;
  }

  lemma CloseKeepsInv(s: State, k: nat)
    requires Inv(s) && Enabled(s, Close(k))
    ensures Inv(After(s, Close(k)))
  {
    hide Heard;
    var s' := After(s, Close(k));
    forall i | 0 <= i < |s'.members| ensures Accounted(s', i) {
      assert Accounted(s, i);
    }
  }

  lemma ReceiveKeepsInv(s: State, k: nat, m: Msg)
    requires Inv(s) && Enabled(s, Receive(k, m))
    ensures Inv(After(s, Receive(k, m)))
  {
    hide Heard;
    var s' := After(s, Receive(k, m));
    forall i | 0 <= i < |s'.members| ensures Accounted(s', i) {
      assert Accounted(s, i);
    }
  }

  lemma ProcessKeepsInv(s: State)
    requires Inv(s) && Enabled(s, Process)
    ensures Inv(After(s, Process))
  {
    hide Heard, Wrapped, OpenOnes;
    var s' := After(s, Process);
    assert |s'.members| == |s.members| && s'.joined == s.joined;
    forall k | 0 <= k < |s'.members| ensures Accounted(s', k) {
      ProcessAccounts(s, k);
    }
    OpenOnesAre(s.members, s.listed);
  }

  /** Every step keeps the invariant. */
  lemma StepKeepsInv(s: State, e: Event)
    requires Inv(s) && Enabled(s, e)
    ensures Inv(After(s, e))
  {
    hide Inv, After;
    match e
    case Accept(open) => AcceptKeepsInv(s, open);
    case Close(k) => CloseKeepsInv(s, k);
    case Receive(k, m) => ReceiveKeepsInv(s, k, m);
    case Process => ProcessKeepsInv(s);
  }

  lemma HeardNothing(log: seq<Incoming<nat>>, n: nat, k: nat)
    requires n <= |log|
    ensures Heard(log[n..n], k) == []
  {
  }

  ghost predicate Reaches(s: State, events: seq<Event>, s': State)
    requires Inv(s)
    decreases |events|
  {
    if events == [] then s == s'
    else
      Enabled(s, events[0]) && (StepKeepsInv(s, events[0]); Reaches(After(s, events[0]), events[1..], s'))
  }

  lemma {:induction false} RunKeepsInv(s: State, events: seq<Event>, s': State)
    requires Inv(s) && Reaches(s, events, s')
    ensures Inv(s')
    decreases |events|
  {
    if events != [] {
      StepKeepsInv(s, events[0]);
      RunKeepsInv(After(s, events[0]), events[1..], s');
    }
  }

  /** In every run, what was handed to a connection is exactly the processed log from its join until
      its socket closed, without its own messages, each wrapped with its sender's label. */
  lemma EveryoneHearsTheLog(events: seq<Event>, s: State, k: nat)
    requires Reaches(INITIAL, events, s) && k < |s.members|
    ensures |s.joined| == |s.members| && s.joined[k] <= Until(s, k) <= |s.log|
    ensures s.members[k].accepted == Heard(s.log[s.joined[k]..Until(s, k)], k)
    ensures s.members[k].open ==> k in s.listed && Until(s, k) == |s.log|
  {
    RunKeepsInv(INITIAL, events, s);
    assert Accounted(s, k);
  }

  /** A connection whose socket has closed is sent nothing more, whatever happens. */
  lemma ClosedHearsNoMore(s: State, k: nat, events: seq<Event>, s': State)
    requires Inv(s) && Enabled(s, Close(k)) && Reaches(s, [Close(k)] + events, s')
    ensures k < |s'.members| && !s'.members[k].open && s'.members[k].accepted == s.members[k].accepted
  {
    assert ([Close(k)] + events)[1..] == events;
    StepKeepsInv(s, Close(k));
    ClosedStays(After(s, Close(k)), k, events, s');
  }

  lemma {:induction false} ClosedStays(s: State, k: nat, events: seq<Event>, s': State)
    requires Inv(s) && k < |s.members| && !s.members[k].open && Reaches(s, events, s')
    ensures k < |s'.members| && !s'.members[k].open && s'.members[k].accepted == s.members[k].accepted
    decreases |events|
  {
    hide Inv, OpenOnes, Wrapped, SomeoneHears;
    if events != [] {
      StepKeepsInv(s, events[0]);
      ClosedStays(After(s, events[0]), k, events[1..], s');
    }
  }

  /** One step of the server's own broadcast does to its list what Process does here. */
  lemma ProcessIsBroadcast(s: State)
    requires Inv(s) && Enabled(s, Process) && s.income[0].m.header.kind == TEXT_MESSAGE
    ensures Inv(After(s, Process))
    ensures Listed(After(s, Process).members, After(s, Process).listed)
         == AfterBroadcast(Listed(s.members, s.listed), s.income[0].sender, Wrapped(s.income[0]))
  {
    hide Wrapped;
    StepKeepsInv(s, Process);
    var x := s.income[0];
    var cs := Listed(s.members, s.listed);
    var told := AllTold(s.members, x.sender, Wrapped(x));
    assert Listed(told, s.listed) == AllTold(cs, x.sender, Wrapped(x));
    SomeoneListedHears(s, x.sender);
    ClearedAlike(told, s.members, s.listed);
  }

  /** Processing until the queue is empty or a message without a handler has been met does to the list
      what one drain does. */
  lemma {:induction false} DrainIsProcessing(s: State) returns (events: seq<Event>, s': State)
    requires Inv(s) && !s.halted
    ensures forall i :: 0 <= i < |events| ==> events[i] == Process
    ensures Reaches(s, events, s') && Inv(s') && (s'.halted || s'.income == [])
    ensures Listed(s'.members, s'.listed) == Drained(Listed(s.members, s.listed), s.income)
    ensures s'.halted <==> !AllText(s.income)
    decreases |s.income|
  {
    hide Wrapped, AfterBroadcast, Listed;
    if s.income == [] {
      return [], s;
    }
    StepKeepsInv(s, Process);
    var next := After(s, Process);
    if s.income[0].m.header.kind != TEXT_MESSAGE {
      ReachesOne(s, Process);
      return [Process], next;
    }
    ProcessIsBroadcast(s);
    assert AllText(s.income) <==> AllText(s.income[1..]);
    events, s' := DrainIsProcessing(next);
    assert ([Process] + events)[1..] == events;
    events := [Process] + events;
  }

  lemma ReachesOne(s: State, e: Event)
    requires Inv(s) && Enabled(s, e)
    ensures Reaches(s, [e], After(s, e))
  {
    StepKeepsInv(s, e);
    assert [e][1..] == [];
  }

  /** The connections in the list, as the broadcast sees them. */
  function Listed(members: seq<Client<nat>>, listed: seq<nat>): (r: seq<Client<nat>>)
    requires forall i :: 0 <= i < |listed| ==> listed[i] < |members|
    ensures |r| == |listed| && forall i :: 0 <= i < |r| ==> r[i] == members[listed[i]]
  {
    seq(|listed|, i requires 0 <= i < |listed| => members[listed[i]])
  }

  lemma SomeoneListedHears(s: State, sender: nat)
    requires Inv(s)
    ensures SomeoneHears(Listed(s.members, s.listed), sender) <==> SomeoneHears(s.members, sender)
  {
    var cs := Listed(s.members, s.listed);
    if SomeoneHears(cs, sender) {
      var i :| 0 <= i < |cs| && Hears(cs[i], sender);
      assert Hears(s.members[s.listed[i]], sender);
    }
    if SomeoneHears(s.members, sender) {
      var k :| 0 <= k < |s.members| && Hears(s.members[k], sender);
      var i :| 0 <= i < |s.listed| && s.listed[i] == k;
      assert Hears(cs[i], sender);
    }
  }

  lemma {:induction false} ClearedAlike(told: seq<Client<nat>>, members: seq<Client<nat>>, listed: seq<nat>)
    requires |told| == |members| && forall k :: 0 <= k < |members| ==> told[k].open == members[k].open
    requires forall i :: 0 <= i < |listed| ==> listed[i] < |members|
    ensures var open := OpenOnes(members, listed);
      (forall i :: 0 <= i < |open| ==> open[i] < |members|) && Listed(told, open) == StillOpen(Listed(told, listed))
  {
    if listed != [] {
      var n := |listed| - 1;
      ClearedAlike(told, members, listed[..n]);
      assert Listed(told, listed)[..n] == Listed(told, listed[..n]);
      var open := OpenOnes(members, listed[..n]);
      if members[listed[n]].open {
        assert Listed(told, open + [listed[n]]) == Listed(told, open) + [told[listed[n]]];
      }
    }
  }

  // ----- one order for all

  /** Where in the log the messages lie that connection k hears between two points. */
  function Positions(log: seq<Incoming<nat>>, start: nat, stop: nat, k: nat): (ps: seq<nat>)
    requires start <= stop <= |log|
    decreases stop
  {
    if start == stop then []
    else Positions(log, start, stop - 1, k) + if log[stop - 1].sender != k then [stop - 1] else []
  }

  ghost predicate Increasing(ps: seq<nat>) {
    forall i, j :: 0 <= i < j < |ps| ==> ps[i] < ps[j]
  }

  /** They are exactly the positions of the others' messages. */
  lemma {:induction false} PositionsContain(log: seq<Incoming<nat>>, start: nat, stop: nat, k: nat, p: nat)
    requires start <= stop <= |log|
    ensures p in Positions(log, start, stop, k) <==> start <= p < stop && log[p].sender != k
    decreases stop
  {
    if start < stop {
      PositionsContain(log, start, stop - 1, k, p);
    }
  }

  /** Each once, in the order of the log. */
  lemma {:induction false} PositionsIncrease(log: seq<Incoming<nat>>, start: nat, stop: nat, k: nat)
    requires start <= stop <= |log|
    ensures Increasing(Positions(log, start, stop, k))
    decreases stop
  {
    if start < stop {
      PositionsIncrease(log, start, stop - 1, k);
      var before := Positions(log, start, stop - 1, k);
      forall i | 0 <= i < |before| ensures before[i] < stop - 1 {
        PositionsContain(log, start, stop - 1, k, before[i]);
      }
    }
  }

  lemma SameOrder(ps: seq<nat>, qs: seq<nat>, i: nat, j: nat, i': nat, j': nat)
    requires Increasing(ps) && Increasing(qs) && i < |ps| && j < |ps| && i' < |qs| && j' < |qs|
    requires ps[i] == qs[i'] && ps[j] == qs[j']
    ensures i < j <==> i' < j'
  {
    assert i < j ==> ps[i] < ps[j];
    assert j < i ==> ps[j] < ps[i];
    assert i' < j' ==> qs[i'] < qs[j'];
    assert j' < i' ==> qs[j'] < qs[i'];
  }

  /** These messages are those at these positions of the log, wrapped. */
  ghost predicate AreAt(ms: seq<Msg>, log: seq<Incoming<nat>>, ps: seq<nat>) {
    |ps| == |ms| && forall i :: 0 <= i < |ps| ==> ps[i] < |log| && ms[i] == Wrapped(log[ps[i]])
  }

  lemma OneMoreAt(ms: seq<Msg>, log: seq<Incoming<nat>>, ps: seq<nat>, p: nat)
    requires AreAt(ms, log, ps) && p < |log|
    ensures AreAt(ms + [Wrapped(log[p])], log, ps + [p])
  {
    hide Wrapped;
  }

  lemma {:induction false} HeardIsAtPositions(log: seq<Incoming<nat>>, start: nat, stop: nat, k: nat)
    requires start <= stop <= |log|
    ensures AreAt(Heard(log[start..stop], k), log, Positions(log, start, stop, k))
    decreases stop
  {
    hide Wrapped, Heard, AreAt;
    if start == stop {
      HeardNothing(log, start, k);
      NoneAt(log);
    } else {
      var x, ps, ms := log[stop - 1], Positions(log, start, stop - 1, k), Heard(log[start..stop - 1], k);
      HeardIsAtPositions(log, start, stop - 1, k);
      assert log[start..stop] == log[start..stop - 1] + [x];
      HeardExtend(log[start..stop - 1], x, k);
      OneMoreAt(ms, log, ps, stop - 1);
      assert ms + [] == ms && ps + [] == ps;
    }
  }

  lemma NoneAt(log: seq<Incoming<nat>>)
    ensures AreAt([], log, [])
  {
  }

  /** The log positions of the messages that connection k has been sent, oldest first. */
  function Hearing(s: State, k: nat): seq<nat>
    requires k < |s.joined| && s.joined[k] <= Until(s, k) <= |s.log|
  {
    Positions(s.log, s.joined[k], Until(s, k), k)
  }

  /** What connection k has been sent, message by message: entry i is log entry Hearing(s, k)[i],
      never its own, never one twice. */
  lemma SentFromTheLog(events: seq<Event>, s: State, k: nat)
    requires Reaches(INITIAL, events, s) && k < |s.members|
    ensures |s.joined| == |s.members| && s.joined[k] <= Until(s, k) <= |s.log|
    ensures Increasing(Hearing(s, k)) && |Hearing(s, k)| == |s.members[k].accepted|
    ensures forall i :: 0 <= i < |Hearing(s, k)| ==>
              Hearing(s, k)[i] < |s.log| && s.log[Hearing(s, k)[i]].sender != k
              && s.members[k].accepted[i] == Wrapped(s.log[Hearing(s, k)[i]])
  {
    hide Wrapped, Reaches, Heard, Positions;
    EveryoneHearsTheLog(events, s, k);
    PositionsIncrease(s.log, s.joined[k], Until(s, k), k);
    HeardIsAtPositions(s.log, s.joined[k], Until(s, k), k);
    forall i | 0 <= i < |Hearing(s, k)| ensures s.log[Hearing(s, k)[i]].sender != k {
      PositionsContain(s.log, s.joined[k], Until(s, k), k, Hearing(s, k)[i]);
    }
  }

  /** Messages that two connections both get are the same messages, and reach them in the same order. */
  lemma SameOrderForAll(events: seq<Event>, s: State, k: nat, l: nat, i: nat, j: nat, i': nat, j': nat)
    requires Reaches(INITIAL, events, s) && k < |s.members| == |s.joined| && l < |s.members|
    requires s.joined[k] <= Until(s, k) <= |s.log| && s.joined[l] <= Until(s, l) <= |s.log|
    requires i < |Hearing(s, k)| && j < |Hearing(s, k)| && i' < |Hearing(s, l)| && j' < |Hearing(s, l)|
    requires Hearing(s, k)[i] == Hearing(s, l)[i'] && Hearing(s, k)[j] == Hearing(s, l)[j']
    ensures i < |s.members[k].accepted| && i' < |s.members[l].accepted|
    ensures s.members[k].accepted[i] == s.members[l].accepted[i'] && (i < j <==> i' < j')
  {
    hide Wrapped, Reaches, Heard, Hearing, Increasing, Until;
    SentFromTheLog(events, s, k);
    SentFromTheLog(events, s, l);
    SameOrder(Hearing(s, k), Hearing(s, l), i, j, i', j');
  }
}
