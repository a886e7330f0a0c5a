/** What the server wraps around a text and how the client takes it apart. */
module Envelope {
  import opened Options
  import opened Bytes
  import opened Messages

  // ----- sender labels

  function ToBytes(s: string): (b: seq<byte>)
    ensures |b| == |s|
  {
    seq(|s|, i requires 0 <= i < |s| => s[i] as int % 256)
  }

  /** std::to_string, as bytes. */
  function Decimal(n: nat): (b: seq<byte>)
    ensures |b| > 0
  {
    if n < 10 then [48 + n] else Decimal(n / 10) + [48 + n % 10]
  }

  function Label(id: nat): seq<byte> {
    if id == 0 then ToBytes("SERVER") else ToBytes("Connection #") + Decimal(id)
  }

  function PowerOfTen(k: nat): (p: nat)
    ensures p > 0
  {
    if k == 0 then 1 else 10 * PowerOfTen(k - 1)
  }

  lemma {:induction false} DecimalLength(n: nat, k: nat)
    requires k > 0 && n < PowerOfTen(k)
    ensures |Decimal(n)| <= k
  {
    if n >= 10 {
      assert PowerOfTen(1) == 10 * PowerOfTen(0);
      DecimalLength(n / 10, k - 1);
    }
  }

  /** Every generated label fits the envelope's one-byte length. */
  lemma LabelFits(id: nat)
    requires id < TWO32
    ensures 0 < |Label(id)| <= 22
  {
    TenPowers();
    DecimalLength(id, 10);
  }

  lemma TenPowers()
    ensures PowerOfTen(10) == 10_000_000_000
  {
    assert PowerOfTen(5) == 100_000 by {
      assert PowerOfTen(3) == 1000;
    }
    assert PowerOfTen(8) == 1000 * PowerOfTen(5);
  }

  lemma {:induction false} DecimalInjective(a: nat, b: nat)
    requires Decimal(a) == Decimal(b)
    ensures a == b
  {
    var s := Decimal(a);
    assert s[|s| - 1] == 48 + a % 10 && s[|s| - 1] == 48 + b % 10;
    assert |s| > 1 <==> a >= 10;
    assert |s| > 1 <==> b >= 10;
    if |s| > 1 {
      assert s[..|s| - 1] == Decimal(a / 10) && s[..|s| - 1] == Decimal(b / 10);
      DecimalInjective(a / 10, b / 10);
    }
  }

  /** A label tells which connection it stands for. */
  lemma LabelInjective(a: nat, b: nat)
    requires Label(a) == Label(b)
    ensures a == b
  {
    var c := ToBytes("Connection #");
    LabelStart(a);
    LabelStart(b);
    if a > 0 {
      SplitEqual(c, Decimal(a), c, Decimal(b));
      DecimalInjective(a, b);
    }
  }

  lemma LabelStart(id: nat)
    ensures Label(id)[0] == if id == 0 then 83 else 67
  {
    assert ToBytes("Connection #")[0] == 67 && ToBytes("SERVER")[0] == 83;
  }

  /** Digit i of the decimals of n, as characters, of which there are as many as n has digits. */
  lemma {:induction false} DecimalAt(n: nat, i: nat)
    requires i < |Decimal(n)|
    ensures Decimal(n)[i] == 48 + n / PowerOfTen(|Decimal(n)| - 1 - i) % 10
    ensures n < PowerOfTen(|Decimal(n)|) && (n > 0 ==> PowerOfTen(|Decimal(n)| - 1) <= n)
  {
    var k := |Decimal(n)| - 1;
    if n < 10 {
      assert PowerOfTen(1) == 10 * PowerOfTen(0);
    } else {
      DecimalAt(n / 10, if i < k then i else 0);
      assert PowerOfTen(k + 1) == 10 * PowerOfTen(k) && PowerOfTen(k) == 10 * PowerOfTen(k - 1);
      if i < k {
        assert PowerOfTen(k - i) == 10 * PowerOfTen(k - 1 - i);
        TenTwice(n, PowerOfTen(k - 1 - i));
      }
    }
  }

  lemma TenTwice(n: nat, m: nat)
    requires m > 0
    ensures n / 10 / m == n / (10 * m)
  {
    var q, r := n / 10 / m, n / 10 % m;
    assert n / 10 == q * m + r;
    assert n == q * (10 * m) + (10 * r + n % 10);
    ModUnique(n, 10 * m, q, 10 * r + n % 10);
  }

  /** SERVER for the server, and for a client Connection, a space, # and the digits of its id. */
  lemma LabelIs(id: nat)
    ensures id == 0 ==> Label(id) == [83, 69, 82, 86, 69, 82]
    ensures id > 0 ==> Label(id) == [67, 111, 110, 110, 101, 99, 116, 105, 111, 110, 32, 35] + Decimal(id)
  {
    assert ToBytes("SERVER") == [83, 69, 82, 86, 69, 82];
    assert ToBytes("Connection #") == [67, 111, 110, 110, 101, 99, 116, 105, 111, 110, 32, 35];
  }

  // ----- the envelope

  /** The message the server sends on: body, size field, sender, sender length, in that order. */
  function Wrap(m: Msg, sender: seq<byte>): Msg {
    var body := m.body + LittleEndian(m.header.size, 4) + sender + [|sender| % 256];
    Msg(Header(TEXT_MESSAGE, 0, |body| % TWO32), body)
  }

  method MakeMessageToClient(m: Msg, sender: seq<byte>) returns (r: Msg)
    ensures r == Wrap(m, sender)
    ensures r.body == m.body + LittleEndian(m.header.size, 4) + sender + [|sender| % 256]
    ensures r.header.kind == TEXT_MESSAGE && r.header.size == |r.body| % TWO32
  {
    var result := new Message(Msg(Header(TEXT_MESSAGE, 0, 0), []));
    for i := 0 to |m.body|
      invariant result.body == m.body[..i] && result.Counted() && result.header == Header(TEXT_MESSAGE, 0, result.header.size)
    {
      result.Put([m.body[i]]);
    }
    result.Put(LittleEndian(m.header.size, 4));
    ghost var start := m.body + LittleEndian(m.header.size, 4);
    for i := 0 to |sender|
      invariant result.body == start + sender[..i] && result.Counted()
      invariant result.header == Header(TEXT_MESSAGE, 0, result.header.size)
    {
      result.Put([sender[i]]);
    }
    result.Put([|sender| % 256]);
    r := result.Value();
  }

  /** Sender and text as the client reads them from the back of a body; None where a field would
      reach before the body's first byte. */
  function Unwrap(body: seq<byte>): Option<(seq<byte>, seq<byte>)> {
    if |body| < 1 then None
    else
      var nameLen: nat := body[|body| - 1];
      var rest := body[..|body| - 1];
      if |rest| < nameLen + 4 then None
      else
        var sender := rest[|rest| - nameLen..];
        var left := rest[..|rest| - nameLen];
        var textLen := FromLittleEndian(left[|left| - 4..]);
        if |left| - 4 < textLen then None
        else Some((sender, left[|left| - 4 - textLen..|left| - 4]))
  }

  function Reversed(s: seq<byte>): (r: seq<byte>)
    ensures |r| == |s|
    ensures forall i :: 0 <= i < |s| ==> r[i] == s[|s| - 1 - i]
  {
    if s == [] then [] else Reversed(s[1..]) + [s[0]]
  }

  /** n bytes popped one by one, then reversed in place: the last n bytes of the body, in order. */
  method PopString(m: Message, n: nat) returns (s: seq<byte>)
    requires n <= |m.body|
    modifies m
    ensures old(m.body) == m.body + s && |s| == n
    ensures m.header.kind == old(m.header.kind)
  {
    ghost var before := m.body;
    s := [];
    for i := 0 to n
      invariant |s| == i && m.body == before[..|before| - i] && m.header.kind == old(m.header.kind)
      invariant forall k :: 0 <= k < i ==> s[k] == before[|before| - 1 - k]
    {
      var ch := m.Get(1);
      assert ch[0] == before[|before| - 1 - i];
      s := s + ch;
    }
    s := Reversed(s);
    assert s == before[|before| - n..];
  }

  /** What the client shows for a message whose fields all lie inside its body. */
  method OnTextMessage(m: Message) returns (senderName: seq<byte>, text: seq<byte>)
    requires Unwrap(m.body).Some?
    modifies m
    ensures Some((senderName, text)) == Unwrap(old(m.body))
    ensures |m.body| == |old(m.body)| - 1 - |senderName| - 4 - |text|
  {
    ghost var b := m.body;
    var nameLen := m.Get(1);
    assert nameLen == [b[|b| - 1]] && m.body == b[..|b| - 1];
    senderName := PopString(m, nameLen[0]);
    ghost var rest := b[..|b| - 1];
    ghost var left := rest[..|rest| - |senderName|];
    assert m.body == left && senderName == rest[|rest| - |senderName|..];
    var size := m.Get(4);
    assert size == left[|left| - 4..] && m.body == left[..|left| - 4];
    var textLen := FromLittleEndian(size);
    text := PopString(m, textLen);
    assert text == left[..|left| - 4][|left| - 4 - textLen..];
  }

  /** The client recovers the sender and the last header.size bytes of the body, which for a
      consistent message is the whole body, and consumes everything behind the rest. */
  lemma UnwrapWrap(m: Msg, sender: seq<byte>)
    requires m.header.size < TWO32 && m.header.size <= |m.body| && |sender| <= 255
    ensures Unwrap(Wrap(m, sender).body) == Some((sender, m.body[|m.body| - m.header.size..]))
  {
    hide Unwrap, LittleEndian, FromLittleEndian;
    Pow256Values();
    LittleEndianRoundTrip(m.header.size, 4);
    UnwrapParts(m.body, LittleEndian(m.header.size, 4), sender, [|sender| % 256]);
  }

  lemma UnwrapParts(front: seq<byte>, size: seq<byte>, sender: seq<byte>, last: seq<byte>)
    requires |size| == 4 && FromLittleEndian(size) <= |front| && |sender| <= 255 && last == [|sender|]
    ensures Unwrap(front + size + sender + last) == Some((sender, front[|front| - FromLittleEndian(size)..]))
  {
    hide FromLittleEndian;
    var left, rest := front + size, front + size + sender;
    LastPart(rest, last);
    LastPart(left, sender);
    LastPart(front, size);
    var k := |front| - FromLittleEndian(size);
    assert left[k..|left| - 4] == left[..|left| - 4][k..];
  }

  lemma LastPart(a: seq<byte>, b: seq<byte>)
    ensures var s := a + b; s[|s| - |b|..] == b && s[..|s| - |b|] == a
  {
  }

  /** A body followed by an envelope for this text and sender. */
  ghost predicate EndsInEnvelope(body: seq<byte>, before: seq<byte>, sender: seq<byte>, text: seq<byte>) {
    body == before + text + LittleEndian(|text|, 4) + sender + [|sender| % 256]
  }

  lemma UnwrappedEndsInEnvelope(body: seq<byte>, sender: seq<byte>, text: seq<byte>) returns (before: seq<byte>)
    requires Unwrap(body) == Some((sender, text))
    ensures |sender| <= 255 && |text| < TWO32 && EndsInEnvelope(body, before, sender, text)
  {
    hide LittleEndian, FromLittleEndian, Pow256;
    var rest, last: seq<byte> := body[..|body| - 1], [|sender| % 256];
    var left := rest[..|rest| - |sender|];
    var size, front: seq<byte> := left[|left| - 4..], left[..|left| - 4];
    before := front[..|front| - |text|];
    LittleEndianIsInverse(size);
    Pow256Values();
    FromLittleEndianBound(size);
    assert text == front[|front| - |text|..];
    Pieces(body, rest, last, left, sender, front, size, before, text);
  }

  lemma Pieces(body: seq<byte>, rest: seq<byte>, last: seq<byte>, left: seq<byte>, sender: seq<byte>,
               front: seq<byte>, size: seq<byte>, before: seq<byte>, text: seq<byte>)
    requires body == rest + last && rest == left + sender && left == front + size && front == before + text
    ensures body == before + text + size + sender + last
  {
  }

  lemma EnvelopeUnwraps(body: seq<byte>, before: seq<byte>, sender: seq<byte>, text: seq<byte>)
    requires |text| < TWO32 && |sender| <= 255 && EndsInEnvelope(body, before, sender, text)
    ensures Unwrap(body) == Some((sender, text))
  {
    var longer := Msg(Header(TEXT_MESSAGE, 0, |text|), before + text);
    assert body == Wrap(longer, sender).body;
    UnwrapWrap(longer, sender);
    assert (before + text)[|before + text| - |text|..] == text;
  }

  /** The client shows a sender and a text exactly for the bodies that end in their envelope. */
  lemma UnwrapSucceedsIff(body: seq<byte>, sender: seq<byte>, text: seq<byte>)
    requires |text| < TWO32 && |sender| <= 255
    ensures Unwrap(body) == Some((sender, text))
        <==> exists before: seq<byte> :: EndsInEnvelope(body, before, sender, text)
  {
    hide Unwrap, EndsInEnvelope;
    if Unwrap(body) == Some((sender, text)) {
      var before := UnwrappedEndsInEnvelope(body, sender, text);
    }
    forall before: seq<byte> | EndsInEnvelope(body, before, sender, text)
      ensures Unwrap(body) == Some((sender, text))
    {
      EnvelopeUnwraps(body, before, sender, text);
    }
  }
}
