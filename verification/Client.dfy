/** The client: it drains its income queue and shows a sender and a text for every message. */
module Client {
  import opened Options
  import opened Bytes
  import opened Messages
  import opened Connections
  import Envelope

  type Line = (seq<byte>, seq<byte>)

  /** Every text message ends in an envelope whose fields lie inside its body. */
  ghost predicate Readable(ms: seq<Msg>) {
    forall i :: 0 <= i < |ms| && ms[i].header.kind == TEXT_MESSAGE ==> Envelope.Unwrap(ms[i].body).Some?
  }

  /** The lines shown, up to the first message of another type. */
  function Shown(ms: seq<Msg>): seq<Line> {
    if ms == [] || ms[0].header.kind != TEXT_MESSAGE || Envelope.Unwrap(ms[0].body).None? then []
    else [Envelope.Unwrap(ms[0].body).value] + Shown(ms[1..])
  }

  ghost predicate AllText(ms: seq<Msg>) {
    forall i :: 0 <= i < |ms| ==> ms[i].header.kind == TEXT_MESSAGE
  }

  /** One line for each text message up to the first message of another type, in their order. */
  lemma {:induction false} ShownAt(ms: seq<Msg>, n: nat, i: nat)
    requires Readable(ms) && n <= |ms| && AllText(ms[..n]) && (n < |ms| ==> ms[n].header.kind != TEXT_MESSAGE)
    ensures |Shown(ms)| == n
    ensures i < n ==> Some(Shown(ms)[i]) == Envelope.Unwrap(ms[i].body)
  {
    hide Envelope.Unwrap;
    if n > 0 {
      assert ms[0] == ms[..n][0] && ms[1..][..n - 1] == ms[..n][1..];
      ShownAt(ms[1..], n - 1, if i > 0 then i - 1 else 0);
    }
  }

  function Contents(q: seq<LinkedMessage>): (ms: seq<Msg>)
    ensures |ms| == |q| && forall i :: 0 <= i < |q| ==> ms[i] == q[i].message
  {
    seq(|q|, i requires 0 <= i < |q| => q[i].message)
  }

  lemma ShownStep(ms: seq<Msg>, n: nat)
    requires n < |ms| && Readable(ms)
    ensures ms[n].header.kind == TEXT_MESSAGE ==>
      Envelope.Unwrap(ms[n].body).Some? && Shown(ms[n..]) == [Envelope.Unwrap(ms[n].body).value] + Shown(ms[n + 1..])
    ensures ms[n].header.kind != TEXT_MESSAGE ==> Shown(ms[n..]) == []
    ensures AllText(ms[n..]) <==> ms[n].header.kind == TEXT_MESSAGE && AllText(ms[n + 1..])
  {
    assert ms[n..] == [ms[n]] + ms[n + 1..];
    assert ms[n..][1..] == ms[n + 1..];
  }

  class MyClient {
    const income: ThreadSafeQueue<LinkedMessage>
    var screen: seq<Line>

    constructor ()
      ensures screen == [] && income.tsq == [] && fresh(income)
    {
      income := new ThreadSafeQueue();
      screen := [];
    }

    /** Drains the income queue; a type without a handler ends the drain with an exception. */
    method Update() returns (completed: bool, ghost n: nat)
      requires Readable(Contents(income.tsq))
      modifies this`screen, income
      ensures screen == old(screen) + Shown(Contents(old(income.tsq)))
      ensures completed <==> AllText(Contents(old(income.tsq)))
      ensures n <= |old(income.tsq)| && |screen| == |old(screen)| + n && old(screen) <= screen
      ensures forall i :: 0 <= i < n ==>
                var m := old(income.tsq)[i].message;
                m.header.kind == TEXT_MESSAGE && Some(screen[|old(screen)| + i]) == Envelope.Unwrap(m.body)
      ensures completed ==> n == |old(income.tsq)| && income.tsq == []
      ensures !completed ==>
                n < |old(income.tsq)| && old(income.tsq)[n].message.header.kind != TEXT_MESSAGE
                && income.tsq == old(income.tsq)[n + 1..]
    {
      hide Shown, AllText, Envelope.Unwrap, Readable;
      ghost var ms := Contents(income.tsq);
      n := 0;
      assert ms[0..] == ms;
      while true
        invariant 0 <= n <= |ms| && income.tsq == old(income.tsq)[n..] && Readable(ms)
        invariant screen + Shown(ms[n..]) == old(screen) + Shown(ms)
        invariant AllText(ms) <==> AllText(ms[n..])
        invariant |screen| == |old(screen)| + n && old(screen) <= screen
        invariant forall i :: 0 <= i < n ==>
                    ms[i].header.kind == TEXT_MESSAGE && Some(screen[|old(screen)| + i]) == Envelope.Unwrap(ms[i].body)
        decreases |income.tsq|
      {
        var size := income.Size();
        if size == 0 {
          NothingShown();
          assert ms[n..] == [];
          assert screen + [] == screen;
          return true, n;
        }
        var msg := income.Front();
        income.Pop();
        ShownStep(ms, n);
        assert ms[n] == msg.message;
        if msg.message.header.kind != TEXT_MESSAGE {
          assert screen + [] == screen;
          return false, n;
        }
        var m := new Message(msg.message);
        var sender, text := Envelope.OnTextMessage(m);
        assert screen + ([(sender, text)] + Shown(ms[n + 1..])) == screen + [(sender, text)] + Shown(ms[n + 1..]);
        screen := screen + [(sender, text)];
        n := n + 1;
      }
    }
  }

  lemma NothingShown()
    ensures Shown([]) == [] && AllText([])
  {
  }
}
