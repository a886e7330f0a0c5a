/** Two connected ends and the byte stream between them, under every interleaving of sends,
    posted lambdas, partial transfers, completions, failures and closes. */
module Link {
  import opened Bytes
  import opened Messages
  import opened Connections

  /** wire: every byte the socket ever took; the reader has consumed the first `consumed` of them.
      log: every message accepted by SendMessage, oldest first. partial: how many bytes of the
      front message's frame are on the wire. failed, readFailed: whether some write or read has failed.
      senderShut, receiverShut: whether that end has closed its socket itself. */
  datatype Link = Link(sender: Sender, receiver: Receiver, wire: seq<byte>, consumed: nat,
                       log: seq<Msg>, partial: nat, failed: bool, readFailed: bool, senderShut: bool,
                       receiverShut: bool)

  datatype Event =
    | Send(m: Msg)
    | RunPosted
    | Transfer(i: nat, n: nat)
    | HeaderWriteDone(i: nat, ok: bool)
    | BodyWriteDone(i: nat, ok: bool)
    | CloseSender
    | HeaderReadDone(ok: bool)
    | BodyReadDone(ok: bool)
    | CloseReceiver

  ghost const INITIAL := Link(Sender(true, [], [], []), Receiver(true, Msg(Header(0, 0, 0), []), HeaderIn, []),
                              [], 0, [], 0, false, false, false, false)

  function OpBytes(op: WriteOp): seq<byte> {
    match op
    case HeaderOut(m, _) => HeaderBytes(m.header)
    case BodyOut(m, _) => m.body
  }

  /** When a step can happen: a completion reports success only for a finished transfer. */
  ghost predicate Enabled(l: Link, e: Event) {
    var s := l.sender;
    match e
    case Send(m) => Consistent(m)
    case RunPosted => s.posted != []
    case Transfer(i, n) => s.open && i < |s.ops| && s.ops[i].done + n <= |OpBytes(s.ops[i])|
    case HeaderWriteDone(i, ok) =>
      i < |s.ops| && s.ops[i].HeaderOut? && (ok ==> s.ops[i].done == HEADER_SIZE)
    case BodyWriteDone(i, ok) =>
      i < |s.ops| && s.ops[i].BodyOut? && (ok ==> s.ops[i].done == |s.ops[i].msg.body|)
    case HeaderReadDone(ok) => l.receiver.op.HeaderIn? && (ok ==> l.consumed + HEADER_SIZE <= |l.wire|)
    case BodyReadDone(ok) => l.receiver.op.BodyIn? && (ok ==> l.consumed + |l.receiver.temp.body| <= |l.wire|)
    case _ => true
  }

  /** A write handler looks at the front of the queue, which must therefore be there. */
  ghost predicate FrontThere(l: Link, e: Event) {
    e.HeaderWriteDone? || e.BodyWriteDone? ==> l.sender.queue != []
  }

  ghost function After(l: Link, e: Event): Link
    requires Enabled(l, e) && FrontThere(l, e)
  {
    var s, r := l.sender, l.receiver;
    match e
    case Send(m) => l.(sender := Posted(s, m), log := if s.open then l.log + [m] else l.log)
    case RunPosted => l.(sender := Ran(s))
    case Transfer(i, n) =>
      var op := s.ops[i];
      l.(sender := s.(ops := s.ops[i := op.(done := op.done + n)]),
         wire := l.wire + OpBytes(op)[op.done..op.done + n], partial := l.partial + n)
    case HeaderWriteDone(i, ok) =>
      l.(sender := HeaderWritten(s, i, ok), failed := l.failed || !ok,
         partial := if ok && s.queue[0].header.size == 0 then 0 else l.partial)
    case BodyWriteDone(i, ok) =>
      l.(sender := BodyWritten(s, i, ok), failed := l.failed || !ok, partial := if ok then 0 else l.partial)
    case CloseSender => l.(sender := s.(open := false), senderShut := true)
    case HeaderReadDone(ok) =>
      if ok then l.(receiver := HeaderRead(r, true, l.wire[l.consumed..l.consumed + HEADER_SIZE]),
                    consumed := l.consumed + HEADER_SIZE)
      else l.(receiver := HeaderRead(r, false, HeaderBytes(r.temp.header)), readFailed := true)
    case BodyReadDone(ok) =>
      var n := |r.temp.body|;
      if ok then l.(receiver := BodyRead(r, true, l.wire[l.consumed..l.consumed + n]), consumed := l.consumed + n)
      else l.(receiver := BodyRead(r, false, r.temp.body), readFailed := true)
    case CloseReceiver => l.(receiver := r.(open := false), receiverShut := true)
  }

  // ----- frames

  function Frame(m: Msg): seq<byte> {
    HeaderBytes(m.header) + m.body
  }

  function Frames(ms: seq<Msg>): seq<byte> {
    if ms == [] then [] else Frames(ms[..|ms| - 1]) + Frame(ms[|ms| - 1])
  }

  lemma FramesExtend(ms: seq<Msg>, m: Msg)
    ensures Frames(ms + [m]) == Frames(ms) + Frame(m)
  {
    assert (ms + [m])[..|ms|] == ms;
  }

  lemma {:induction false} FramesConcat(a: seq<Msg>, b: seq<Msg>)
    ensures Frames(a + b) == Frames(a) + Frames(b)
  {
    if b == [] {
      assert a + b == a;
    } else {
      var c, m := b[..|b| - 1], b[|b| - 1];
      FramesConcat(a, c);
      ConcatLast(a, b);
      FramesExtend(a + c, m);
      Assoc(Frames(a), Frames(c), Frame(m));
    }
  }

  lemma ConcatLast(a: seq<Msg>, b: seq<Msg>)
    requires b != []
    ensures a + b == (a + b[..|b| - 1]) + [b[|b| - 1]]
  {
  }

  lemma Assoc(a: seq<byte>, b: seq<byte>, c: seq<byte>)
    ensures a + b + c == a + (b + c)
  {
  }

  /** The frames of a log around its message q. */
  lemma FramesAround(ms: seq<Msg>, q: nat)
    requires q < |ms|
    ensures Frames(ms) == Frames(ms[..q]) + Frame(ms[q]) + Frames(ms[q + 1..])
  {
    hide Frames, Frame;
    AroundIs(ms, q);
    FramesConcat(ms[..q] + [ms[q]], ms[q + 1..]);
    FramesExtend(ms[..q], ms[q]);
  }

  lemma AroundIs(ms: seq<Msg>, q: nat)
    requires q < |ms|
    ensures ms == ms[..q] + [ms[q]] + ms[q + 1..]
  {
  }

  // ----- what the reader makes of the frames

  /** The body an empty message is delivered with: that of the last message that had one. */
  function Stale(ms: seq<Msg>): seq<byte> {
    if ms == [] then []
    else if ms[|ms| - 1].body != [] then ms[|ms| - 1].body
    else Stale(ms[..|ms| - 1])
  }

  /** The messages as the reader hands them on. */
  function Delivered(ms: seq<Msg>): (r: seq<Msg>)
    ensures |r| == |ms|
  {
    if ms == [] then []
    else
      var before, m := ms[..|ms| - 1], ms[|ms| - 1];
      Delivered(before) + [if m.body == [] then Msg(m.header, Stale(before)) else m]
  }

  lemma DeliveredExtend(ms: seq<Msg>, m: Msg)
    ensures Delivered(ms + [m]) == Delivered(ms) + [if m.body == [] then Msg(m.header, Stale(ms)) else m]
    ensures Stale(ms + [m]) == if m.body == [] then Stale(ms) else m.body
  {
    assert (ms + [m])[..|ms|] == ms;
  }

  // ----- the invariant

  /** How many accepted messages have left the queue for good. */
  ghost function Done(l: Link): int {
    |l.log| - |l.sender.queue| - |l.sender.posted|
  }

  ghost predicate WriterInv(l: Link) {
    var s, p := l.sender, Done(l);
    && p >= 0 && l.log[p..] == s.queue + s.posted
    && (forall i :: 0 <= i < |l.log| ==> Consistent(l.log[i]))
    && |s.ops| <= 1
    && (s.open <==> !l.failed && !l.senderShut)
    && (l.failed ==> s.ops == [] && s.queue != [])
    && (!l.failed ==> (s.ops == [] <==> s.queue == []))
    && (s.queue == [] ==> l.partial == 0)
    && (s.queue != [] ==> l.partial <= |Frame(s.queue[0])|)
    && (s.ops != [] ==> OpMatches(s.ops[0], s.queue[0], l.partial))
    && l.wire == Frames(l.log[..p]) + (if s.queue == [] then [] else Frame(s.queue[0])[..l.partial])
  }

  /** The write under way sends the front message, from where the wire stands. */
  ghost predicate OpMatches(op: WriteOp, front: Msg, partial: nat) {
    && op.msg == front && op.done <= |OpBytes(op)|
    && partial == (if op.HeaderOut? then op.done else HEADER_SIZE + op.done)
    && (op.BodyOut? ==> front.body != [])
  }

  ghost predicate ReaderInv(l: Link) {
    var r, q := l.receiver, |l.receiver.income|;
    && (r.open <==> !l.readFailed && !l.receiverShut) && (r.op.NotReading? <==> l.readFailed)
    && q <= |l.log| && r.income == Delivered(l.log[..q]) && l.consumed <= |l.wire|
    && (r.op.HeaderIn? ==> l.consumed == |Frames(l.log[..q])| && r.temp.body == Stale(l.log[..q]))
    && (r.op.BodyIn? ==> q < |l.log| && l.consumed == |Frames(l.log[..q])| + HEADER_SIZE
                         && r.temp.header == l.log[q].header && |r.temp.body| == |l.log[q].body| > 0)
  }

  ghost predicate Inv(l: Link) {
    WriterInv(l) && ReaderInv(l)
  }

  // ----- the writer keeps its half

  lemma FrontIsThere(l: Link, e: Event)
    requires WriterInv(l) && Enabled(l, e)
    ensures FrontThere(l, e)
  {
  }

  lemma FrontIsNext(l: Link)
    requires WriterInv(l) && l.sender.queue != []
    ensures 0 <= Done(l) < |l.log| && l.log[Done(l)] == l.sender.queue[0] && Consistent(l.sender.queue[0])
  {
    assert l.log[Done(l)..][0] == (l.sender.queue + l.sender.posted)[0];
  }

  lemma RunStep(l: Link)
    requires WriterInv(l) && l.sender.posted != []
    ensures WriterInv(After(l, RunPosted))
  {
    hide Frames;
    var s := l.sender;
    assert s.queue + s.posted == (s.queue + [s.posted[0]]) + s.posted[1..];
    if s.queue == [] {
      assert Frame(s.posted[0])[..0] == [];
    }
  }

  lemma TransferStep(l: Link, i: nat, n: nat)
    requires WriterInv(l) && Enabled(l, Transfer(i, n))
    ensures WriterInv(After(l, Transfer(i, n)))
  {
    assert i == 0 && |l.sender.ops| == 1;
    hide WriterInv, Frames, Frame, OpBytes;
    var l' := After(l, Transfer(0, n));
    var op := l.sender.ops[0];
    assert l'.sender.ops == [op.(done := op.done + n)];
    TransferKeeps(l, l', op, n);
  }

  lemma TransferKeeps(l: Link, l': Link, op: WriteOp, n: nat)
    requires WriterInv(l) && l.sender.ops == [op] && op.done + n <= |OpBytes(op)|
    requires l' == l.(sender := l.sender.(ops := [op.(done := op.done + n)]),
                      wire := l.wire + OpBytes(op)[op.done..op.done + n], partial := l.partial + n)
    ensures WriterInv(l')
  {
    hide Frames, Frame, OpBytes;
    var m := l.sender.queue[0];
    TransferGrows(m, op, l.partial, n);
    Assoc(Frames(l.log[..Done(l)]), Frame(m)[..l.partial], OpBytes(op)[op.done..op.done + n]);
    SameBytes(op, op.done + n);
  }

  lemma SameBytes(op: WriteOp, done: nat)
    ensures OpBytes(op.(done := done)) == OpBytes(op)
  {
  }

  lemma FailedStep(l: Link, e: Event)
    requires WriterInv(l) && Enabled(l, e) && (e.HeaderWriteDone? || e.BodyWriteDone?) && !e.ok && l.sender.queue != []
    ensures WriterInv(After(l, e))
  {
    hide Frames, Frame;
  }

  lemma HeaderDoneStep(l: Link, i: nat)
    requires WriterInv(l) && Enabled(l, HeaderWriteDone(i, true)) && l.sender.queue != []
    ensures WriterInv(After(l, HeaderWriteDone(i, true)))
  {
    assert i == 0 && |l.sender.ops| == 1 && Without(l.sender.ops, 0) == [];
    hide WriterInv, Frames, Frame, HeaderBytes;
    var l', front := After(l, HeaderWriteDone(0, true)), l.sender.queue[0];
    if front.header.size == 0 {
      EmptyMessageDone(l, l');
    } else {
      assert l'.sender == l.sender.(ops := [BodyOut(front, 0)]);
      BodyFollows(l, l');
    }
  }

  lemma BodyFollows(l: Link, l': Link)
    requires WriterInv(l) && l.sender.queue != [] && |l.sender.ops| == 1 && l.sender.ops[0].HeaderOut?
    requires l.sender.ops[0].done == HEADER_SIZE && l.sender.queue[0].header.size != 0
    requires l' == l.(sender := l.sender.(ops := [BodyOut(l.sender.queue[0], 0)]))
    ensures WriterInv(l')
  {
    hide Frames, HeaderBytes;
    FrontIsNext(l);
  }

  lemma EmptyMessageDone(l: Link, l': Link)
    requires WriterInv(l) && l.sender.queue != [] && |l.sender.ops| == 1 && l.sender.ops[0].HeaderOut?
    requires l.sender.ops[0].done == HEADER_SIZE && l.sender.queue[0].header.size == 0
    requires l' == l.(sender := Popped(l.sender.(ops := [])), partial := 0)
    ensures WriterInv(l')
  {
    hide Frames, HeaderBytes;
    FrontIsNext(l);
    PopStep(l, l');
  }

  lemma BodyDoneStep(l: Link, i: nat)
    requires WriterInv(l) && Enabled(l, BodyWriteDone(i, true)) && l.sender.queue != []
    ensures WriterInv(After(l, BodyWriteDone(i, true)))
  {
    hide Frames;
    PopStep(l, After(l, BodyWriteDone(i, true)));
  }

  /** Closing, and whatever the reader does, leaves the writer's half alone. */
  lemma OtherStep(l: Link, e: Event)
    requires WriterInv(l) && Enabled(l, e)
    requires e.CloseSender? || e.CloseReceiver? || e.HeaderReadDone? || e.BodyReadDone?
    ensures WriterInv(After(l, e))
  {
    OpenIs(l);
    hide WriterInv, HeaderRead, BodyRead;
    match e {
      case CloseSender => WriterSame(l, After(l, CloseSender));
      case CloseReceiver => WriterSame(l, After(l, CloseReceiver));
      case HeaderReadDone(ok) => WriterSame(l, After(l, HeaderReadDone(ok)));
      case BodyReadDone(ok) => WriterSame(l, After(l, BodyReadDone(ok)));
    }
  }

  lemma OpenIs(l: Link)
    requires WriterInv(l)
    ensures l.sender.open <==> !l.failed && !l.senderShut
  {
  }

  lemma WriterSame(l: Link, l': Link)
    requires WriterInv(l) && l'.sender == l.sender.(open := l'.sender.open)
    requires l'.log == l.log && l'.wire == l.wire && l'.partial == l.partial && l'.failed == l.failed
    requires l'.sender.open <==> !l'.failed && !l'.senderShut
    ensures WriterInv(l')
  {
    hide Frames, Frame, OpMatches;
  }

  lemma WriterStep(l: Link, e: Event)
    requires WriterInv(l) && Enabled(l, e)
    ensures FrontThere(l, e) && WriterInv(After(l, e))
  {
    FrontIsThere(l, e);
    hide WriterInv, Enabled, After;
    match e
    case Send(m) =>
      SendConsistent(l, m);
      SendStep(l, m);
    case RunPosted =>
      PostedIsThere(l);
      RunStep(l);
    case Transfer(i, n) =>
      TransferStep(l, i, n);
    case HeaderWriteDone(i, ok) =>
      if ok { HeaderDoneStep(l, i); } else { FailedStep(l, e); }
    case BodyWriteDone(i, ok) =>
      if ok { BodyDoneStep(l, i); } else { FailedStep(l, e); }
    case _ =>
      OtherStep(l, e);
  }

  lemma SendConsistent(l: Link, m: Msg)
    requires Enabled(l, Send(m))
    ensures Consistent(m)
  {
  }

  lemma PostedIsThere(l: Link)
    requires Enabled(l, RunPosted)
    ensures l.sender.posted != []
  {
  }

  lemma SendStep(l: Link, m: Msg)
    requires WriterInv(l) && Consistent(m)
    ensures WriterInv(After(l, Send(m)))
  {
    hide Frames;
    var p := Done(l);
    if l.sender.open {
      assert (l.log + [m])[p..] == l.log[p..] + [m] && (l.log + [m])[..p] == l.log[..p];
    }
  }

  lemma TransferGrows(m: Msg, op: WriteOp, partial: nat, n: nat)
    requires OpMatches(op, m, partial) && op.done + n <= |OpBytes(op)|
    ensures partial + n <= |Frame(m)|
    ensures Frame(m)[..partial + n] == Frame(m)[..partial] + OpBytes(op)[op.done..op.done + n]
  {
  }

  /** The whole frame of the front message is out and the message leaves the queue. */
  lemma PopStep(l: Link, l': Link)
    requires WriterInv(l) && !l.failed && l.sender.queue != [] && l.partial == |Frame(l.sender.queue[0])|
    requires l'.sender.queue == l.sender.queue[1..] && l'.sender.posted == l.sender.posted
    requires l'.log == l.log && l'.wire == l.wire && l'.partial == 0
    ensures l'.log[Done(l')..] == l'.sender.queue + l'.sender.posted
    ensures l'.wire == Frames(l'.log[..Done(l')])
  {
    hide Frames, Frame;
    var p, m := Done(l), l.sender.queue[0];
    FrontIsNext(l);
    assert l.log[..p + 1] == l.log[..p] + [m];
    FramesExtend(l.log[..p], m);
    var f := Frame(m);
    assert f[..|f|] == f;
    assert l.log[p + 1..] == (l.sender.queue + l.sender.posted)[1..] == l.sender.queue[1..] + l.sender.posted;
  }

  // ----- the reader keeps its half

  lemma WireIsPrefix(l: Link)
    requires WriterInv(l)
    ensures l.wire <= Frames(l.log)
  {
    hide Frames, Frame;
    var p := Done(l);
    if l.sender.queue == [] {
      assert l.log == l.log[..p] + l.log[p..];
      FramesConcat(l.log[..p], l.log[p..]);
    } else {
      FrontIsNext(l);
      FramesAround(l.log, p);
    }
  }

  lemma FrameAt(l: Link, q: nat)
    requires WriterInv(l) && q <= |l.log| && |Frames(l.log[..q])| < |l.wire|
    ensures q < |l.log| && Frames(l.log) == Frames(l.log[..q]) + Frame(l.log[q]) + Frames(l.log[q + 1..])
  {
    WireIsPrefix(l);
    assert l.log[..|l.log|] == l.log;
    FramesAround(l.log, q);
  }

  /** The bytes of the wire from a to b are those of any list of frames it is a prefix of. */
  lemma SameSlice(wire: seq<byte>, all: seq<byte>, x: seq<byte>, y: seq<byte>, z: seq<byte>)
    requires wire <= all && all == x + y + z && |x| + |y| <= |wire|
    ensures wire[|x|..|x| + |y|] == y
  {
  }

  /** Whatever the writer does, and closing, leaves the reader's half alone. */
  lemma ReaderUntouched(l: Link, e: Event)
    requires Inv(l) && Enabled(l, e) && FrontThere(l, e) && !e.HeaderReadDone? && !e.BodyReadDone?
    ensures ReaderInv(After(l, e))
  {
    hide Frames, Delivered, Stale, WriterInv, HeaderWritten, BodyWritten, Ran;
    var q := |l.receiver.income|;
    assert After(l, e).log[..q] == l.log[..q];
  }

  lemma ReadFails(l: Link, e: Event)
    requires Inv(l) && Enabled(l, e) && (e == HeaderReadDone(false) || e == BodyReadDone(false))
    ensures ReaderInv(After(l, e))
  {
    hide Frames, Delivered, Stale, WriterInv;
  }

  lemma ReaderStep(l: Link, e: Event)
    requires Inv(l) && Enabled(l, e) && FrontThere(l, e)
    ensures ReaderInv(After(l, e))
  {
    hide WriterInv, ReaderInv, Enabled, After;
    if e == HeaderReadDone(true) {
      HeaderArrives(l);
    } else if e == BodyReadDone(true) {
      BodyArrives(l);
    } else if e.HeaderReadDone? || e.BodyReadDone? {
      ReadFails(l, e);
    } else {
      ReaderUntouched(l, e);
    }
  }

  lemma HeaderArrives(l: Link)
    requires Inv(l) && Enabled(l, HeaderReadDone(true))
    ensures ReaderInv(After(l, HeaderReadDone(true)))
  {
    hide Frames, HeaderBytes, HeaderFrom, Delivered, Stale;
    var q := |l.receiver.income|;
    FrameAt(l, q);
    WireIsPrefix(l);
    var m := l.log[q];
    assert Consistent(m);
    Assoc(Frames(l.log[..q]), HeaderBytes(m.header), m.body);
    Assoc(Frames(l.log[..q]) + HeaderBytes(m.header), m.body, Frames(l.log[q + 1..]));
    SameSlice(l.wire, Frames(l.log), Frames(l.log[..q]), HeaderBytes(m.header), m.body + Frames(l.log[q + 1..]));
    HeaderRoundTrip(m.header);
    if m.header.size == 0 {
      MessageDone(l.log, q);
    }
  }

  lemma MessageDone(ms: seq<Msg>, q: nat)
    requires q < |ms|
    ensures Delivered(ms[..q + 1]) ==
            Delivered(ms[..q]) + [if ms[q].body == [] then Msg(ms[q].header, Stale(ms[..q])) else ms[q]]
    ensures Stale(ms[..q + 1]) == if ms[q].body == [] then Stale(ms[..q]) else ms[q].body
    ensures Frames(ms[..q + 1]) == Frames(ms[..q]) + Frame(ms[q])
  {
    hide Frames, Delivered, Stale;
    assert ms[..q + 1] == ms[..q] + [ms[q]];
    DeliveredExtend(ms[..q], ms[q]);
    FramesExtend(ms[..q], ms[q]);
  }

  lemma BodyArrives(l: Link)
    requires Inv(l) && Enabled(l, BodyReadDone(true))
    ensures ReaderInv(After(l, BodyReadDone(true)))
  {
    hide Frames, HeaderBytes, Delivered, Stale;
    var q := |l.receiver.income|;
    FrameAt(l, q);
    WireIsPrefix(l);
    var m := l.log[q];
    Assoc(Frames(l.log[..q]), HeaderBytes(m.header), m.body);
    SameSlice(l.wire, Frames(l.log), Frames(l.log[..q]) + HeaderBytes(m.header), m.body, Frames(l.log[q + 1..]));
    MessageDone(l.log, q);
  }

  // ----- every run

  /** Every step keeps both halves. */
  lemma StepKeepsInv(l: Link, e: Event)
    requires Inv(l) && Enabled(l, e)
    ensures FrontThere(l, e) && Inv(After(l, e))
  {
    WriterStep(l, e);
    ReaderStep(l, e);
  }

  /** l' is reached from l by these steps, each of them possible when it is taken. */
  ghost predicate Reaches(l: Link, events: seq<Event>, l': Link)
    decreases |events|
  {
    if events == [] then l == l'
    else Enabled(l, events[0]) && FrontThere(l, events[0]) && Reaches(After(l, events[0]), events[1..], l')
  }

  lemma {:induction false} RunKeepsInv(l: Link, events: seq<Event>, l': Link)
    requires Inv(l) && Reaches(l, events, l')
    ensures Inv(l')
    decreases |events|
  {
    if events != [] {
      StepKeepsInv(l, events[0]);
      RunKeepsInv(After(l, events[0]), events[1..], l');
    }
  }

  /** In every reachable state at most one write is under way, and until a write fails one is under
      way exactly when the queue is non-empty; on the wire are the frames of the messages that have
      left the queue, in the order of acceptance, and the part of the front's frame written so far. */
  lemma AtMostOneWrite(events: seq<Event>, l: Link)
    requires Reaches(INITIAL, events, l)
    ensures |l.sender.ops| <= 1
    ensures !l.failed ==> (|l.sender.ops| == 1 <==> l.sender.queue != [])
    ensures 0 <= Done(l) <= |l.log|
    ensures l.sender.queue != [] ==> l.partial <= |Frame(l.sender.queue[0])|
    ensures l.wire == Frames(l.log[..Done(l)])
                      + (if l.sender.queue == [] then [] else Frame(l.sender.queue[0])[..l.partial])
    ensures l.wire <= Frames(l.log)
  {
    RunKeepsInv(INITIAL, events, l);
    WireIsPrefix(l);
  }

  /** Once a write has failed the wire never grows again and nothing is sent or accepted. */
  lemma FailureIsFinal(l: Link, e: Event)
    requires Inv(l) && l.failed && Enabled(l, e)
    ensures FrontThere(l, e)
    ensures After(l, e).failed && After(l, e).wire == l.wire && After(l, e).sender.ops == [] && After(l, e).log == l.log
  {
  }

  /** What a failed write does: the socket is closed, the write is over and nothing else changes. */
  lemma WriteFailureStops(l: Link, e: Event)
    requires Inv(l) && Enabled(l, e) && (e.HeaderWriteDone? || e.BodyWriteDone?) && !e.ok
    ensures FrontThere(l, e)
    ensures var l' := After(l, e);
      && l'.failed && !l'.sender.open && l'.sender.ops == [] && l'.sender.queue == l.sender.queue
      && l'.sender.posted == l.sender.posted && l'.wire == l.wire && l'.log == l.log
  {
  }

  /** And then for good: whatever the run, nothing is written or accepted any more. */
  lemma {:induction false} FailureStays(l: Link, events: seq<Event>, l': Link)
    requires Inv(l) && l.failed && Reaches(l, events, l')
    ensures l'.failed && !l'.sender.open && l'.sender.ops == [] && l'.wire == l.wire && l'.log == l.log
    decreases |events|
  {
    if events != [] {
      hide WriterInv, ReaderInv, After, Enabled, FrontThere;
      StepKeepsInv(l, events[0]);
      FailureIsFinal(l, events[0]);
      FailureStays(After(l, events[0]), events[1..], l');
    } else {
      assert WriterInv(l);
    }
  }

  /** What a failed read does: the socket is closed, no read is under way, and no byte is consumed and
      no message handed on. */
  lemma ReadFailureStops(l: Link, e: Event)
    requires Inv(l) && Enabled(l, e) && (e == HeaderReadDone(false) || e == BodyReadDone(false))
    ensures FrontThere(l, e)
    ensures var l' := After(l, e);
      && l'.readFailed && !l'.receiver.open && l'.receiver.op == NotReading
      && l'.receiver.income == l.receiver.income && l'.consumed == l.consumed && l'.receiver.temp == l.receiver.temp
  {
  }

  lemma ReadFailureStep(l: Link, e: Event)
    requires Inv(l) && l.readFailed && Enabled(l, e)
    ensures FrontThere(l, e)
    ensures var l' := After(l, e);
      l'.readFailed && l'.receiver.income == l.receiver.income && l'.consumed == l.consumed
  {
  }

  /** And then for good: whatever the run, no byte is consumed and no message handed on any more. */
  lemma {:induction false} ReadFailureStays(l: Link, events: seq<Event>, l': Link)
    requires Inv(l) && l.readFailed && Reaches(l, events, l')
    ensures l'.readFailed && !l'.receiver.open && l'.receiver.op == NotReading
    ensures l'.receiver.income == l.receiver.income && l'.consumed == l.consumed
    decreases |events|
  {
    if events != [] {
      hide WriterInv, ReaderInv, After, Enabled, FrontThere;
      StepKeepsInv(l, events[0]);
      ReadFailureStep(l, events[0]);
      ReadFailureStays(After(l, events[0]), events[1..], l');
    } else {
      assert ReaderInv(l);
    }
  }

  /** Neither end closes but by itself or by a failure of its own, and the reader reads until one. */
  lemma ClosedOnlyByFailureOrOwner(events: seq<Event>, l: Link)
    requires Reaches(INITIAL, events, l)
    ensures l.sender.open <==> !l.failed && !l.senderShut
    ensures l.receiver.open <==> !l.readFailed && !l.receiverShut
    ensures l.receiver.op == NotReading <==> l.readFailed
  {
    RunKeepsInv(INITIAL, events, l);
  }

  // ----- nothing is held back

  /** No lambda is waiting, no write is under way, and no read could complete. */
  ghost predicate AtRest(l: Link) {
    && l.sender.posted == [] && l.sender.ops == []
    && !Enabled(l, HeaderReadDone(true)) && !Enabled(l, BodyReadDone(true))
  }

  lemma NothingHeldBack(l: Link)
    requires Inv(l) && !l.failed && !l.readFailed && AtRest(l)
    ensures |l.receiver.income| == |l.log|
  {
    hide Frames, HeaderBytes, Delivered, Stale;
    var q := |l.receiver.income|;
    assert l.log[..|l.log|] == l.log;
    assert Done(l) == |l.log| && l.wire == Frames(l.log) + [] == Frames(l.log);
    if q < |l.log| {
      FramesAround(l.log, q);
    }
  }

  /** When neither end has failed and everything has come to rest, every message accepted has arrived. */
  lemma EverythingArrives(events: seq<Event>, l: Link)
    requires Reaches(INITIAL, events, l) && !l.failed && !l.readFailed && AtRest(l)
    ensures l.receiver.income == Delivered(l.log)
  {
    RunKeepsInv(INITIAL, events, l);
    NothingHeldBack(l);
    assert l.log[..|l.log|] == l.log;
  }

  /** At every moment the reader has handed on, in order, a prefix of what was accepted, each
      message byte for byte except that an empty one carries the last body seen. */
  lemma FifoFraming(events: seq<Event>, l: Link)
    requires Reaches(INITIAL, events, l)
    ensures var q := |l.receiver.income|; q <= |l.log| && l.receiver.income == Delivered(l.log[..q])
  {
    RunKeepsInv(INITIAL, events, l);
  }

  /** No message with a body comes before one without. */
  ghost predicate EmptyOnesFirst(ms: seq<Msg>) {
    forall i, j :: 0 <= i < j < |ms| && ms[j].body == [] ==> ms[i].body == []
  }

  lemma {:induction false} StaleIsEmptyIff(ms: seq<Msg>)
    ensures Stale(ms) == [] <==> forall i :: 0 <= i < |ms| ==> ms[i].body == []
  {
    if ms != [] {
      StaleIsEmptyIff(ms[..|ms| - 1]);
    }
  }

  /** The messages arrive as they were sent exactly when no empty one follows one with a body. */
  lemma {:induction false} DeliveredFaithfulIff(ms: seq<Msg>)
    ensures Delivered(ms) == ms <==> EmptyOnesFirst(ms)
  {
    if ms != [] {
      var before, m := ms[..|ms| - 1], ms[|ms| - 1];
      DeliveredFaithfulIff(before);
      StaleIsEmptyIff(before);
      assert ms == before + [m];
      var last := if m.body == [] then Msg(m.header, Stale(before)) else m;
      assert Delivered(ms) == Delivered(before) + [last];
      assert Delivered(ms) == ms <==> Delivered(before) == before && last == m by {
        assert (Delivered(before) + [last])[..|before|] == Delivered(before) && ms[..|before|] == before;
      }
      assert EmptyOnesFirst(ms) <==> EmptyOnesFirst(before) && (m.body == [] ==> Stale(before) == []);
    }
  }

  /** A message with a body, then an empty one: the empty one arrives with the first one's body. */
  lemma EmptyMessageArrivesWithOldBody(b: byte)
    ensures Delivered([Msg(Header(0, 0, 1), [b]), Msg(Header(0, 0, 0), [])])
         == [Msg(Header(0, 0, 1), [b]), Msg(Header(0, 0, 0), [b])]
  {
    var m := Msg(Header(0, 0, 1), [b]);
    DeliveredExtend([], m);
    DeliveredExtend([m], Msg(Header(0, 0, 0), []));
    assert [] + [m] == [m];
  }
}
