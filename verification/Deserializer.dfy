/** Decoding from a buffer through an iterator, and reading a primitive back. */
module Deserializer {
  import opened Bytes
  import opened Options
  import opened SerialFormat

  const I8: byte := 1
  const I16: byte := 2
  const I32: byte := 3
  const I64: byte := 4
  const U8: byte := 5
  const U16: byte := 6
  const U32: byte := 7
  const U64: byte := 8
  const BOOL: byte := 9
  const FLOAT: byte := 10
  const DOUBLE: byte := 11

  /** GetTypeSize. */
  function TypeSize(kind: byte): nat {
    if kind == I8 || kind == U8 || kind == BOOL then 1
    else if kind == I16 || kind == U16 then 2
    else if kind == I32 || kind == U32 || kind == FLOAT then 4
    else if kind == I64 || kind == U64 || kind == DOUBLE then 8
    else 0
  }

  /** The widths: one byte for 1, 5 and 9, two for 2 and 6, four for 3, 7 and 10, eight for 4, 8 and 11,
      and none for any other number. */
  lemma TypeSizes()
    ensures TypeSize(1) == TypeSize(5) == TypeSize(9) == 1 && TypeSize(2) == TypeSize(6) == 2
    ensures TypeSize(3) == TypeSize(7) == TypeSize(10) == 4 && TypeSize(4) == TypeSize(8) == TypeSize(11) == 8
    ensures forall kind: byte :: kind == 0 || kind > 11 ==> TypeSize(kind) == 0
  {
  }

  // ----- decoding

  /** One step of the loop: or-ing in the next byte below the ones already there. */
  lemma OrNext(c: nat, b: byte, j: nat)
    ensures Or(c * Pow256(j + 1), b * Pow256(j)) == (256 * c + b) * Pow256(j)
  {
    var p := Pow256(j);
    Pow256IsPow2(j + 1);
    ByteBelow(b, p);
    OrDisjoint(c, b * p, 8 * (j + 1));
    Regroup(c, b, p);
  }

  lemma ByteBelow(b: byte, p: nat)
    requires p > 0
    ensures 0 <= b * p < 256 * p
  {
  }

  lemma Regroup(c: nat, b: nat, p: nat)
    ensures c * (256 * p) + b * p == (256 * c + b) * p
  {
  }

  /** decode of an integer type of k bytes; a byte is shifted as an int, which carries it no further
      than 32 bits. */
  method DecodeInt(buffer: array<byte>, it: nat, k: nat) returns (result: nat, next: nat)
    requires k <= 4 && it + k <= buffer.Length
    ensures result == FromBigEndian(buffer[it..it + k]) && next == it + k
  {
    hide Or, FromBigEndian;
    result, next := 0, it;
    NoBytes();
    assert buffer[it..it + 0] == [];
    for i := 0 to k
      invariant next == it + i
      invariant result == FromBigEndian(buffer[it..it + i]) * Pow256(k - i)
    {
      ghost var c := FromBigEndian(buffer[it..it + i]);
      var b := buffer[next];
      var buf := b * Pow256(k - (i + 1));
      assert k - i == k - (i + 1) + 1;
      OrNext(c, b, k - (i + 1));
      NextByte(buffer[it..it + i], b);
      assert buffer[it..it + i + 1] == buffer[it..it + i] + [b];
      ByteBelow(b, Pow256(k - (i + 1)));
      result := Or(result, buf);
      next := next + 1;
    }
    assert Pow256(0) == 1;
  }

  lemma NoBytes()
    ensures FromBigEndian([]) == 0
  {
  }

  lemma NextByte(s: seq<byte>, b: byte)
    ensures FromBigEndian(s + [b]) == 256 * FromBigEndian(s) + b
  {
    assert (s + [b])[..|s|] == s;
  }

  /** decode of a string: the iterator goes back over the four bytes of its length first. */
  method DecodeString(buffer: array<byte>, it: nat) returns (result: seq<byte>, next: nat)
    requires 4 <= it <= buffer.Length && it + FromBigEndian(buffer[it - 4..it]) <= buffer.Length
    ensures |result| == FromBigEndian(buffer[it - 4..it]) && next == it + |result|
    ensures result == buffer[it..next]
  {
    var length;
    next := it - 4;
    length, next := DecodeInt(buffer, next, 4);
    result := buffer[next..next + length];
    next := next + length;
  }

  /** decode into a vector of bytes that has its length already. */
  method DecodeVector(buffer: array<byte>, it: nat, value: array<byte>) returns (next: nat)
    requires it + value.Length <= buffer.Length && value != buffer
    modifies value
    ensures next == it + value.Length && value[..] == buffer[it..next]
  {
    next := it;
    for i := 0 to value.Length
      invariant next == it + i
      invariant value[..i] == buffer[it..next]
    {
      value[i] := buffer[next];
      next := next + 1;
    }
    assert value[..value.Length] == value[..];
  }

  // ----- a primitive

  /** The primitive at the start of the bytes and where it ends; None where the bytes are too few. */
  function Parse(s: seq<byte>): Option<(Obj, nat)> {
    if |s| < 8 then None
    else
      var n := FromBigEndian(s[4..8]);
      if |s| < 10 + n then None
      else
        var d := TypeSize(s[9 + n]);
        if |s| < 10 + n + d then None
        else
          var base := Base(s[8..8 + n], n, s[8 + n], FromBigEndian(s[..4]));
          Some((Primitive(base, s[9 + n], s[10 + n..10 + n + d]), 10 + n + d))
  }

  /** A primitive read from these bytes, the next one being at end: four bytes of size, four of the length
      n of the name, the name, the wrapper, the type and as many bytes of data as the type is wide. */
  ghost predicate IsAt(o: Obj, s: seq<byte>, end: nat) {
    && o.Primitive? && |s| >= 10
    && o.base.size == FromBigEndian(s[..4])
    && var n := FromBigEndian(s[4..8]);
    && o.base.nameLength == n && 10 + n <= end <= |s|
    && o.base.name == s[8..8 + n] && o.base.wrapper == s[8 + n]
    && o.kind == s[9 + n] && o.data == s[10 + n..end] && |o.data| == TypeSize(o.kind)
  }

  /** Bytes are parsed exactly when a primitive lies at their beginning, and it is the one parsed. */
  lemma ParsedIff(s: seq<byte>, o: Obj, end: nat)
    ensures Parse(s) == Some((o, end)) <==> IsAt(o, s, end)
  {
    hide FromBigEndian, TypeSize;
  }

  /** Primitive::deserialize. */
  method Deserialize(buffer: array<byte>) returns (o: Obj, next: nat)
    requires Parse(buffer[..]).Some?
    ensures Parse(buffer[..]) == Some((o, next))
    ensures next <= buffer.Length && IsAt(o, buffer[..], next)
  {
    hide FromBigEndian;
    ghost var s := buffer[..];
    var size, nameLength, name, wrapper, kind;
    size, next := DecodeInt(buffer, 0, 4);
    assert s[0..4] == s[..4] == buffer[0..4];
    nameLength, next := DecodeInt(buffer, next, 4);
    assert s[4..8] == buffer[4..8];
    name, next := DecodeString(buffer, next);
    OneByteBack(buffer[next]);
    assert buffer[next..next + 1] == [buffer[next]];
    wrapper, next := DecodeInt(buffer, next, 1);
    OneByteBack(buffer[next]);
    assert buffer[next..next + 1] == [buffer[next]];
    kind, next := DecodeInt(buffer, next, 1);
    var data := new byte[TypeSize(kind)];
    next := DecodeVector(buffer, next, data);
    o := Primitive(Base(name, nameLength, wrapper, size), kind, data[..]);
  }

  lemma OneByteBack(x: byte)
    ensures FromBigEndian([x]) == x
  {
    NoBytes();
    NextByte([], x);
    assert [] + [x] == [x];
  }

  // ----- one undoes the other

  /** Where the fields of a serialized primitive are. */
  lemma Fields(o: Obj, x: seq<byte>)
    requires o.Primitive?
    ensures var s, n := Ser(o) + x, |o.base.name|;
      && |s| == 10 + n + |o.data| + |x|
      && s[..4] == BigEndian(o.base.size, 4) && s[4..8] == BigEndian(o.base.nameLength, 4)
      && s[8..8 + n] == o.base.name && s[8 + n] == o.base.wrapper && s[9 + n] == o.kind
      && s[10 + n..10 + n + |o.data|] == o.data
  {
    hide BigEndian;
    var a, b := BigEndian(o.base.size, 4), BigEndian(o.base.nameLength, 4);
    assert Ser(o) + x == a + b + o.base.name + [o.base.wrapper] + [o.kind] + o.data + x;
  }

  /** A primitive comes back from its bytes, which are consumed exactly whatever follows them, if and
      only if its name can be counted in 32 bits and its data is as wide as its type says. */
  lemma PrimitiveRoundTripIff(o: Obj, x: seq<byte>)
    requires o.Primitive? && Built(o)
    ensures Parse(Ser(o) + x) == Some((o, |Ser(o)|)) <==> |o.base.name| < TWO32 && |o.data| == TypeSize(o.kind)
  {
    hide Ser, BigEndian, FromBigEndian, Counted, Mod32;
    SerLength(o);
    Fields(o, x);
    Pow256Values();
    FieldBack(o.base.size);
    FieldBack(o.base.nameLength);
    Mod32Small(|o.base.name|);
  }

  lemma FieldBack(n: nat)
    requires n < TWO32
    ensures FromBigEndian(BigEndian(n, 4)) == n
  {
    hide BigEndian, FromBigEndian;
    Pow256Values();
    BigEndianRoundTrip(n, 4);
  }

  lemma Pieces(s: seq<byte>, n: nat, end: nat)
    requires 10 + n <= end <= |s|
    ensures s[..end] == s[..4] + s[4..8] + s[8..8 + n] + [s[8 + n]] + ([s[9 + n]] + s[10 + n..end])
  {
  }

  /** What was read from bytes is written as those bytes. */
  lemma ParsedIsSerialized(s: seq<byte>)
    requires Parse(s).Some?
    ensures var (o, end) := Parse(s).value; end <= |s| && Ser(o) == s[..end] && o.base.nameLength == |o.base.name|
  {
    hide BigEndian, FromBigEndian;
    var (o, end) := Parse(s).value;
    var n := o.base.nameLength;
    FromBigEndianRoundTrip(s[..4]);
    FromBigEndianRoundTrip(s[4..8]);
    hide Parse, TypeSize;
    Pieces(s, n, end);
  }

  /** The value a primitive was created with comes back modulo the width of its type. */
  lemma ValueComesBack(name: seq<byte>, kind: byte, value: int)
    requires |name| < TWO32
    ensures var o := NewPrimitive(name, kind, BigEndian(value, TypeSize(kind)));
      && Parse(Ser(o)) == Some((o, |Ser(o)|))
      && FromBigEndian(o.data) == value % Pow256(TypeSize(kind))
  {
    hide Parse, Built, BigEndian, FromBigEndian, Ser;
    var data := BigEndian(value, TypeSize(kind));
    var o := NewPrimitive(name, kind, data);
    NewIsBuilt(name, kind, 0, data);
    PrimitiveRoundTripIff(o, []);
    assert Ser(o) + [] == Ser(o);
    BigEndianRoundTrip(value, TypeSize(kind));
  }
}
