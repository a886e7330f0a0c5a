/** One end of a socket: the posted sends, the write machine, the read machine and their handlers. */
module Connections {
  import opened Bytes
  import opened Messages
  import opened Vectors

  // ----- the write side as a value

  /** An asynchronous write under way: the message whose header or body it sends and how many of
      those bytes the socket has taken so far. */
  datatype WriteOp = HeaderOut(msg: Msg, done: nat) | BodyOut(msg: Msg, done: nat)

  datatype Sender = Sender(open: bool, posted: seq<Msg>, queue: seq<Msg>, ops: seq<WriteOp>)

  function Without<T>(s: seq<T>, i: nat): (r: seq<T>)
    requires i < |s|
    ensures |r| == |s| - 1
  {
    s[..i] + s[i + 1..]
  }

  /** SendMessage posts the message if the socket is open at the call. */
  function Posted(s: Sender, m: Msg): Sender {
    if s.open then s.(posted := s.posted + [m]) else s
  }

  function HeaderStarted(s: Sender): Sender
    requires s.queue != []
  {
    s.(ops := s.ops + [HeaderOut(s.queue[0], 0)])
  }

  /** The oldest posted lambda runs: a write is started only if the queue was empty. */
  function Ran(s: Sender): Sender
    requires s.posted != []
  {
    var t := s.(posted := s.posted[1..], queue := s.queue + [s.posted[0]]);
    if s.queue == [] then HeaderStarted(t) else t
  }

  function Popped(s: Sender): Sender
    requires s.queue != []
  {
    var t := s.(queue := s.queue[1..]);
    if t.queue != [] then HeaderStarted(t) else t
  }

  /** The completion handler of header write i. */
  function HeaderWritten(s: Sender, i: nat, ok: bool): Sender
    requires i < |s.ops| && s.ops[i].HeaderOut? && s.queue != []
  {
    var t := s.(ops := Without(s.ops, i));
    if !ok then t.(open := false)
    else if s.queue[0].header.size == 0 then Popped(t)
    else t.(ops := t.ops + [BodyOut(s.queue[0], 0)])
  }

  /** The completion handler of body write i. */
  function BodyWritten(s: Sender, i: nat, ok: bool): Sender
    requires i < |s.ops| && s.ops[i].BodyOut? && s.queue != []
  {
    var t := s.(ops := Without(s.ops, i));
    if !ok then t.(open := false) else Popped(t)
  }

  // ----- the read side as a value

  datatype ReadOp = NotReading | HeaderIn | BodyIn

  datatype Receiver = Receiver(open: bool, temp: Msg, op: ReadOp, income: seq<Msg>)

  /** The completion handler of a header read: the body keeps what it held. */
  function HeaderRead(r: Receiver, ok: bool, bytes: seq<byte>): Receiver
    requires |bytes| == HEADER_SIZE
  {
    if !ok then r.(open := false, op := NotReading)
    else
      var t := r.(temp := Msg(HeaderFrom(bytes), r.temp.body));
      if t.temp.header.size == 0 then t.(income := t.income + [t.temp], op := HeaderIn)
      else t.(temp := Msg(t.temp.header, Resized(t.temp.body, t.temp.header.size, 0)), op := BodyIn)
  }

  /** The completion handler of a body read. */
  function BodyRead(r: Receiver, ok: bool, bytes: seq<byte>): Receiver
    requires |bytes| == |r.temp.body|
  {
    if !ok then r.(open := false, op := NotReading)
    else
      var t := r.(temp := Msg(r.temp.header, bytes));
      t.(income := t.income + [t.temp], op := HeaderIn)
  }

  // ----- the class

  /** A mutex-guarded std::queue, with each guarded call as one step. */
  class ThreadSafeQueue<T> {
    var tsq: seq<T>

    constructor ()
      ensures tsq == []
    {
      tsq := [];
    }

    method Front() returns (r: T)
      requires tsq != []
      ensures r == tsq[0]
    {
      r := tsq[0];
    }

    method Push(value: T)
      modifies this
      ensures tsq == old(tsq) + [value]
    {
      tsq := tsq + [value];
    }

    /** Popping an empty queue does nothing. */
    method Pop()
      modifies this
      ensures tsq == if old(tsq) == [] then [] else old(tsq)[1..]
    {
      if tsq != [] {
        tsq := tsq[1..];
      }
    }

    method Size() returns (n: nat)
      ensures n == |tsq|
    {
      n := |tsq|;
    }
  }

  datatype LinkedMessage = LinkedMessage(message: Msg, connection: Connection)

  class Connection {
    var socketOpen: bool
    var connectionId: nat
    var posted: seq<Msg>
    const outcome: ThreadSafeQueue<Msg>
    var ops: seq<WriteOp>
    const income: ThreadSafeQueue<LinkedMessage>
    var temp: Msg
    var readOp: ReadOp
    ghost var accepted: seq<Msg>
    ghost var delivered: seq<Msg>

    ghost function SendSide(): Sender
      reads this, outcome
    {
      Sender(socketOpen, posted, outcome.tsq, ops)
    }

    ghost function ReadSide(): Receiver
      reads this
    {
      Receiver(socketOpen, temp, readOp, delivered)
    }

    constructor (open: bool, income: ThreadSafeQueue<LinkedMessage>)
      ensures this.income == income && fresh(outcome)
      ensures SendSide() == Sender(open, [], [], [])
      ensures ReadSide() == Receiver(open, Msg(Header(0, 0, 0), []), NotReading, [])
      ensures connectionId == 0 && accepted == []
    {
      socketOpen, connectionId, posted, ops := open, 0, [], [];
      outcome := new ThreadSafeQueue();
      this.income := income;
      temp, readOp := Msg(Header(0, 0, 0), []), NotReading;
      accepted, delivered := [], [];
    }

    predicate IsConnected()
      reads this
    {
      socketOpen
    }

    /** Disconnect, once the posted close has run. */
    method Close()
      modifies this`socketOpen
      ensures !socketOpen
    {
      socketOpen := false;
    }

    // ----- sending

    method SendMessage(message: Msg)
      modifies this`posted, this`accepted
      ensures SendSide() == Posted(old(SendSide()), message)
      ensures posted == old(posted) + if socketOpen then [message] else []
      ensures accepted == if socketOpen then old(accepted) + [message] else old(accepted)
    {
      if !IsConnected() {
        return;
      }
      posted := posted + [message];
      accepted := accepted + [message];
    }

    /** The posted lambda at the head of the line. */
    method RunPosted()
      requires posted != []
      modifies this`posted, this`ops, outcome
      ensures SendSide() == Ran(old(SendSide()))
      ensures posted == old(posted)[1..] && outcome.tsq == old(outcome.tsq) + [old(posted)[0]]
      ensures ops == old(ops) + if old(outcome.tsq) == [] then [HeaderOut(old(posted)[0], 0)] else []
    {
      var message := posted[0];
      posted := posted[1..];
      var queueSize := outcome.Size();
      outcome.Push(message);
      if queueSize == 0 {
        WriteMessageHeader();
      }
    }

    method WriteMessageHeader()
      requires outcome.tsq != []
      modifies this`ops
      ensures SendSide() == HeaderStarted(old(SendSide()))
    {
      var front := outcome.Front();
      ops := ops + [HeaderOut(front, 0)];
    }

    method OnHeaderWritten(i: nat, ok: bool)
      requires i < |ops| && ops[i].HeaderOut? && outcome.tsq != []
      modifies this`ops, this`socketOpen, outcome
      ensures SendSide() == HeaderWritten(old(SendSide()), i, ok)
      ensures !ok ==> !socketOpen && ops == Without(old(ops), i) && outcome.tsq == old(outcome.tsq)
      ensures ok ==> socketOpen == old(socketOpen)
      ensures ok && old(outcome.tsq)[0].header.size != 0 ==>
        outcome.tsq == old(outcome.tsq) && ops == Without(old(ops), i) + [BodyOut(outcome.tsq[0], 0)]
      ensures ok && old(outcome.tsq)[0].header.size == 0 ==>
        outcome.tsq == old(outcome.tsq)[1..]
        && ops == Without(old(ops), i) + if outcome.tsq == [] then [] else [HeaderOut(outcome.tsq[0], 0)]
    {
      ops := Without(ops, i);
      if ok {
        var front := outcome.Front();
        if front.header.size == 0 {
          outcome.Pop();
          var n := outcome.Size();
          if n != 0 {
            WriteMessageHeader();
          }
        } else {
          WriteMessageBody();
        }
      } else {
        socketOpen := false;
      }
    }

    method WriteMessageBody()
      requires outcome.tsq != []
      modifies this`ops
      ensures SendSide() == old(SendSide()).(ops := old(ops) + [BodyOut(outcome.tsq[0], 0)])
    {
      var front := outcome.Front();
      ops := ops + [BodyOut(front, 0)];
    }

    method OnBodyWritten(i: nat, ok: bool)
      requires i < |ops| && ops[i].BodyOut? && outcome.tsq != []
      modifies this`ops, this`socketOpen, outcome
      ensures SendSide() == BodyWritten(old(SendSide()), i, ok)
      ensures !ok ==> !socketOpen && ops == Without(old(ops), i) && outcome.tsq == old(outcome.tsq)
      ensures ok ==> socketOpen == old(socketOpen) && outcome.tsq == old(outcome.tsq)[1..]
      ensures ok ==> ops == Without(old(ops), i) + if outcome.tsq == [] then [] else [HeaderOut(outcome.tsq[0], 0)]
    {
      ops := Without(ops, i);
      if ok {
        outcome.Pop();
        var n := outcome.Size();
        if n != 0 {
          WriteMessageHeader();
        }
      } else {
        socketOpen := false;
      }
    }

    // ----- receiving

    method ReadMessageHeader()
      modifies this`readOp
      ensures ReadSide() == old(ReadSide()).(op := HeaderIn)
    {
      readOp := HeaderIn;
    }

    method ReadMessageBody()
      modifies this`readOp
      ensures ReadSide() == old(ReadSide()).(op := BodyIn)
    {
      readOp := BodyIn;
    }

    method OnHeaderRead(ok: bool, bytes: seq<byte>)
      requires readOp.HeaderIn? && |bytes| == HEADER_SIZE
      modifies this`temp, this`readOp, this`socketOpen, this`delivered, income
      ensures ReadSide() == HeaderRead(old(ReadSide()), ok, bytes)
      ensures !ok ==> !socketOpen && readOp == NotReading && temp == old(temp) && delivered == old(delivered)
      ensures ok ==> socketOpen == old(socketOpen) && temp.header == HeaderFrom(bytes)
      ensures ok && temp.header.size == 0 ==>
        readOp == HeaderIn && temp.body == old(temp).body && delivered == old(delivered) + [temp]
      ensures ok && temp.header.size != 0 ==>
        readOp == BodyIn && |temp.body| == temp.header.size && delivered == old(delivered)
      ensures PushedNew(old(income.tsq), |old(delivered)|)
    {
      if ok {
        temp := Msg(HeaderFrom(bytes), temp.body);
        if temp.header.size == 0 {
          AddNewMessage();
          ReadMessageHeader();
        } else {
          temp := Msg(temp.header, Resized(temp.body, temp.header.size, 0));
          ReadMessageBody();
        }
      } else {
        socketOpen := false;
        readOp := NotReading;
      }
    }

    method OnBodyRead(ok: bool, bytes: seq<byte>)
      requires readOp.BodyIn? && |bytes| == |temp.body|
      modifies this`temp, this`readOp, this`socketOpen, this`delivered, income
      ensures ReadSide() == BodyRead(old(ReadSide()), ok, bytes)
      ensures !ok ==> !socketOpen && readOp == NotReading && temp == old(temp) && delivered == old(delivered)
      ensures ok ==> socketOpen == old(socketOpen) && readOp == HeaderIn && temp == Msg(old(temp).header, bytes)
      ensures ok ==> delivered == old(delivered) + [temp]
      ensures PushedNew(old(income.tsq), |old(delivered)|)
    {
      if ok {
        temp := Msg(temp.header, bytes);
        AddNewMessage();
        ReadMessageHeader();
      } else {
        socketOpen := false;
        readOp := NotReading;
      }
    }

    /** The income queue has grown by what this end has delivered beyond the first n messages,
        linked to this connection. */
    ghost predicate PushedNew(before: seq<LinkedMessage>, n: nat)
      reads this, income
    {
      n <= |delivered| <= n + 1 &&
      income.tsq == if |delivered| == n then before else before + [LinkedMessage(delivered[n], this)]
    }

    /** The queue gets a copy: the rvalue overload of push still copies its named argument. */
    method AddNewMessage()
      modifies this`delivered, income
      ensures delivered == old(delivered) + [temp]
      ensures income.tsq == old(income.tsq) + [LinkedMessage(temp, this)]
    {
      income.Push(LinkedMessage(temp, this));
      delivered := delivered + [temp];
    }
  }
}
