/** The chat's messages: a fixed header and a body that works like a stack of fields. */
module Messages {
  import opened Bytes

  const TEXT_MESSAGE: nat := 0

  /** sizeof(MessageHeader<MessageTypes>): a two-byte type, two bytes of padding, a four-byte size. */
  const HEADER_SIZE: nat := 8

  datatype Header = Header(kind: nat, pad: nat, size: nat)

  datatype Msg = Msg(header: Header, body: seq<byte>)

  ghost predicate HeaderFits(h: Header) {
    h.kind < 65536 && h.pad < 65536 && h.size < TWO32
  }

  /** The header says how long the body is. */
  ghost predicate Consistent(m: Msg) {
    HeaderFits(m.header) && m.header.size == |m.body|
  }

  // ----- the header in memory

  function HeaderBytes(h: Header): (s: seq<byte>)
    ensures |s| == HEADER_SIZE
  {
    LittleEndian(h.kind, 2) + LittleEndian(h.pad, 2) + LittleEndian(h.size, 4)
  }

  function HeaderFrom(s: seq<byte>): Header
    requires |s| == HEADER_SIZE
  {
    Header(FromLittleEndian(s[..2]), FromLittleEndian(s[2..4]), FromLittleEndian(s[4..]))
  }

  /** The type in the first two bytes, the size in the last four, each least significant byte first. */
  lemma HeaderLayout(h: Header)
    ensures var s := HeaderBytes(h);
      && s[0] == h.kind % 256 && s[1] == h.kind / 256 % 256 && s[4] == h.size % 256 && s[5] == h.size / 256 % 256
      && s[6] == h.size / 0x1_0000 % 256 && s[7] == h.size / 0x100_0000 % 256
  {
    Pow256Values();
    hide LittleEndian, Pow256;
    LittleEndianAt(h.kind, 2, 0);
    LittleEndianAt(h.kind, 2, 1);
    LittleEndianAt(h.size, 4, 0);
    LittleEndianAt(h.size, 4, 1);
    LittleEndianAt(h.size, 4, 2);
    LittleEndianAt(h.size, 4, 3);
  }

  lemma HeaderRoundTrip(h: Header)
    requires HeaderFits(h)
    ensures HeaderFrom(HeaderBytes(h)) == h
  {
    Pow256Values();
    var s := HeaderBytes(h);
    assert s[..2] == LittleEndian(h.kind, 2) && s[2..4] == LittleEndian(h.pad, 2) && s[4..] == LittleEndian(h.size, 4);
    LittleEndianRoundTrip(h.kind, 2);
    LittleEndianRoundTrip(h.pad, 2);
    LittleEndianRoundTrip(h.size, 4);
  }

  // ----- the operators

  /** A message under construction or being taken apart. */
  class Message {
    var header: Header
    var body: seq<byte>

    constructor (m: Msg)
      ensures Value() == m
    {
      header, body := m.header, m.body;
    }

    function Value(): Msg
      reads this
    {
      Msg(header, body)
    }

    /** What both operators keep: the size field is the body's length, as far as 32 bits go. */
    ghost predicate Counted()
      reads this
    {
      header.size == |body| % TWO32
    }

    /** operator<< with the bytes of the datum. */
    method Put(data: seq<byte>)
      modifies this
      ensures body == old(body) + data
      ensures header == old(header).(size := (old(header.size) + |data|) % TWO32)
      ensures old(Counted()) ==> Counted()
    {
      body := body + data;
      header := header.(size := (header.size + |data|) % TWO32);
    }

    /** operator>> into a datum of n bytes; with fewer bytes in the body the source is undefined. */
    method Get(n: nat) returns (data: seq<byte>)
      requires n <= |body|
      modifies this
      ensures |data| == n && old(body) == body + data
      ensures header == old(header).(size := |body| % TWO32)
      ensures Counted()
    {
      var newSize := |body| - n;
      data := body[newSize..];
      body := body[..newSize];
      header := header.(size := newSize % TWO32);
    }
  }

  /** What Put adds on top, Get takes off again. */
  method PutThenGet(m: Message, data: seq<byte>) returns (back: seq<byte>)
    requires m.header.size == |m.body| % TWO32
    modifies m
    ensures back == data && m.Value() == old(m.Value())
  {
    m.Put(data);
    back := m.Get(|data|);
    SplitEqual(m.body, back, old(m.body), data);
  }
}
