/** Writing objects into a buffer through a shared iterator, and reading a primitive back. */
module Serializer {
  import opened Bytes
  import opened SerialFormat
  import opened SerialLayout

  // ----- encoding

  /** The buffer after bytes were put at it. */
  function Written(s: seq<byte>, it: nat, bytes: seq<byte>): (r: seq<byte>)
    requires it + |bytes| <= |s|
    ensures |r| == |s|
  {
    s[..it] + bytes + s[it + |bytes|..]
  }

  /** The bytes are where they were put, and everything else is where it was. */
  lemma WrittenIs(s: seq<byte>, it: nat, bytes: seq<byte>)
    requires it + |bytes| <= |s|
    ensures var r := Written(s, it, bytes);
      r[..it] == s[..it] && r[it..it + |bytes|] == bytes && r[it + |bytes|..] == s[it + |bytes|..]
  {
  }

  lemma WrittenThen(s: seq<byte>, it: nat, a: seq<byte>, b: seq<byte>)
    requires it + |a| + |b| <= |s|
    ensures Written(Written(s, it, a), it + |a|, b) == Written(s, it, a + b)
  {
    var t := Written(s, it, a);
    assert t[..it + |a|] == s[..it] + a;
    assert t[it + |a| + |b|..] == s[it + |a| + |b|..];
    assert s[..it] + a + b == s[..it] + (a + b);
  }

  lemma WrittenNothing(s: seq<byte>, it: nat)
    requires it <= |s|
    ensures Written(s, it, []) == s
  {
    assert s[..it] + [] + s[it..] == s;
  }

  lemma WrittenOne(s: seq<byte>, it: nat, a: seq<byte>, x: byte)
    requires it + |a| < |s|
    ensures Written(s, it, a)[it + |a| := x] == Written(s, it, a + [x])
  {
  }

  /** encode of an integer type of k bytes. */
  method EncodeInt(buffer: array<byte>, it: nat, value: int, k: nat) returns (next: nat)
    requires it + k <= buffer.Length
    modifies buffer
    ensures next == it + k
    ensures buffer[..] == Written(old(buffer[..]), it, BigEndian(value, k))
  {
    hide BigEndian, Written;
    ghost var all := BigEndian(value, k);
    next := it;
    var i := 0;
    WrittenNothing(buffer[..], it);
    while i < k
      invariant 0 <= i <= k && next == it + i
      invariant buffer[..] == Written(old(buffer[..]), it, all[..i])
    {
      BigEndianAt(value, k, i);
      WrittenOne(old(buffer[..]), it, all[..i], all[i]);
      assert all[..i + 1] == all[..i] + [all[i]];
      buffer[next] := value / Pow256(k - 1 - i) % 256;
      next := next + 1;
      i := i + 1;
    }
    assert all[..k] == all;
  }

  /** encode of a string or of a vector of bytes. */
  method EncodeBytes(buffer: array<byte>, it: nat, value: seq<byte>) returns (next: nat)
    requires it + |value| <= buffer.Length
    modifies buffer
    ensures next == it + |value|
    ensures buffer[..] == Written(old(buffer[..]), it, value)
  {
    hide BigEndian, Written;
    next := it;
    WrittenNothing(buffer[..], it);
    for i := 0 to |value|
      invariant next == it + i
      invariant buffer[..] == Written(old(buffer[..]), it, value[..i])
    {
      OneByte(value[i]);
      WrittenThen(old(buffer[..]), it, value[..i], [value[i]]);
      assert value[..i + 1] == value[..i] + [value[i]];
      next := EncodeInt(buffer, next, value[i], 1);
    }
    assert value[..|value|] == value;
  }

  lemma OneByte(x: byte)
    ensures BigEndian(x, 1) == [x]
  {
    assert BigEndian(x / 256, 0) == [];
  }

  /** The elements of a vector, k bytes each. */
  function EncodeAll(values: seq<int>, k: nat): (s: seq<byte>)
    ensures |s| == k * |values|
  {
    if values == [] then [] else EncodeAll(values[..|values| - 1], k) + BigEndian(values[|values| - 1], k)
  }

  /** Element i takes the k bytes at k * i. */
  lemma {:induction false} EncodeAllAt(values: seq<int>, k: nat, i: nat)
    requires i < |values|
    ensures k * i + k <= |EncodeAll(values, k)|
    ensures EncodeAll(values, k)[k * i..k * i + k] == BigEndian(values[i], k)
  {
    hide BigEndian;
    var n := |values| - 1;
    var a, b := EncodeAll(values[..n], k), BigEndian(values[n], k);
    assert EncodeAll(values, k) == a + b;
    if i < n {
      EncodeAllAt(values[..n], k, i);
      assert (a + b)[k * i..k * i + k] == a[k * i..k * i + k];
    } else {
      assert (a + b)[|a|..|a| + k] == b;
    }
  }

  method EncodeVector(buffer: array<byte>, it: nat, values: seq<int>, k: nat) returns (next: nat)
    requires it + k * |values| <= buffer.Length
    modifies buffer
    ensures next == it + k * |values|
    ensures buffer[..] == Written(old(buffer[..]), it, EncodeAll(values, k))
  {
    hide Written, BigEndian;
    next := it;
    WrittenNothing(buffer[..], it);
    for i := 0 to |values|
      invariant next == it + |EncodeAll(values[..i], k)| <= buffer.Length
      invariant buffer[..] == Written(old(buffer[..]), it, EncodeAll(values[..i], k))
    {
      assert values[..i + 1][..i] == values[..i];
      Multiples(k, i + 1, |values|);
      WrittenThen(old(buffer[..]), it, EncodeAll(values[..i], k), BigEndian(values[i], k));
      next := EncodeInt(buffer, next, values[i], k);
    }
    assert values[..|values|] == values;
  }

  lemma Multiples(k: nat, i: nat, n: nat)
    requires i <= n
    ensures k * i <= k * n
  {
  }

  // ----- creating objects

  /** Primitive::create with a value of k bytes; float and double values are their bit patterns. */
  method CreatePrimitive(name: seq<byte>, kind: byte, value: int, k: nat) returns (o: Obj)
    ensures o == NewPrimitive(name, kind, BigEndian(value, k)) && Built(o)
    ensures o.Primitive? && o.base.wrapper == 1 && o.base.name == name && o.kind == kind && o.data == BigEndian(value, k)
  {
    hide Built, BigEndian, NewArray, NewString;
    var data := new byte[k];
    var it := EncodeInt(data, 0, value, k);
    NewIsBuilt(name, kind, 0, BigEndian(value, k));
    o := NewPrimitive(name, kind, data[..]);
  }

  /** Array::create with elements of k bytes. */
  method CreateArray(name: seq<byte>, kind: byte, values: seq<int>, k: nat) returns (o: Obj)
    ensures o == NewArray(name, kind, |values|, EncodeAll(values, k)) && Built(o)
    ensures o.Array? && o.base.wrapper == 2 && o.base.name == name && o.kind == kind && o.length == |values| % TWO32
    ensures o.data == EncodeAll(values, k)
  {
    hide Built, EncodeAll, NewPrimitive, NewString;
    var data := new byte[k * |values|];
    var it := EncodeVector(data, 0, values, k);
    NewIsBuilt(name, kind, |values|, EncodeAll(values, k));
    o := NewArray(name, kind, |values|, data[..]);
  }

  /** String::create. */
  method CreateString(name: seq<byte>, kind: byte, value: seq<byte>) returns (o: Obj)
    ensures o == NewString(name, kind, value) && Built(o)
    ensures o.Str? && o.base.wrapper == 3 && o.base.name == name && o.kind == kind && o.length == |value| % TWO32
    ensures o.data == value
  {
    hide Built, NewPrimitive, NewArray;
    var data := new byte[|value|];
    var it := EncodeBytes(data, 0, value);
    NewIsBuilt(name, kind, 0, value);
    o := NewString(name, kind, data[..]);
  }

  /** A struct under construction. */
  class StructObject {
    var base: Base
    var primitives: seq<Obj>
    var arrays: seq<Obj>
    var strings: seq<Obj>
    var structs: seq<Obj>

    constructor (name: seq<byte>)
      ensures Value() == NewStruct(name) && Built(Value()) && base.wrapper == 4 && base.name == name
      ensures primitives == [] && arrays == [] && strings == [] && structs == []
    {
      base := Grown(NewBase(name, STRUCT), 32);
      primitives, arrays, strings, structs := [], [], [], [];
      new;
      NewIsBuilt(name, 0, 0, []);
    }

    function Value(): Obj
      reads this
    {
      Struct(base, primitives, arrays, strings, structs)
    }

    /** The object is moved into the list its wrapper names. */
    method AddObject(o: Obj)
      requires o.base.wrapper == Kind(o)
      modifies this
      ensures Value() == Added(old(Value()), o)
      ensures base == old(base).(size := (old(base.size) + o.base.size) % TWO32)
      ensures primitives == old(primitives) + (if o.Primitive? then [o] else [])
      ensures arrays == old(arrays) + (if o.Array? then [o] else [])
      ensures strings == old(strings) + (if o.Str? then [o] else [])
      ensures structs == old(structs) + (if o.Struct? then [o] else [])
      ensures old(Built(Value())) && Built(o) ==> Built(Value())
    {
      ghost var was := Value();
      base := Grown(base, o.base.size);
      if o.base.wrapper == PRIMITIVE {
        primitives := primitives + [o];
      } else if o.base.wrapper == ARRAY {
        arrays := arrays + [o];
      } else if o.base.wrapper == STRING {
        strings := strings + [o];
      } else if o.base.wrapper == STRUCT {
        structs := structs + [o];
      }
      assert Value() == Added(was, o);
      hide *;
      if Built(was) && Built(o) {
        AddedIsBuilt(was, o);
      }
    }
  }

  // ----- serializing

  /** Object::serialize. */
  method SerializeBase(b: Base, buffer: array<byte>, it: nat) returns (next: nat)
    requires it + |BaseBytes(b)| <= buffer.Length
    modifies buffer
    ensures next == it + |BaseBytes(b)|
    ensures buffer[..] == Written(old(buffer[..]), it, BaseBytes(b))
  {
    hide BigEndian, Written;
    ghost var s := buffer[..];
    ghost var x, y := BigEndian(b.size, 4), BigEndian(b.nameLength, 4);
    next := EncodeInt(buffer, it, b.size, 4);
    next := EncodeInt(buffer, next, b.nameLength, 4);
    WrittenThen(s, it, x, y);
    next := EncodeBytes(buffer, next, b.name);
    WrittenThen(s, it, x + y, b.name);
    OneByte(b.wrapper);
    next := EncodeInt(buffer, next, b.wrapper, 1);
    WrittenThen(s, it, x + y + b.name, [b.wrapper]);
  }

  /** serialize of whichever kind of object: advances the iterator by the bytes of the object, puts
      them there and changes no other byte. */
  method Serialize(o: Obj, buffer: array<byte>, it: nat) returns (next: nat)
    requires it + |Ser(o)| <= buffer.Length
    modifies buffer
    ensures next == it + |Ser(o)|
    ensures buffer[..] == Written(old(buffer[..]), it, Ser(o))
    ensures LaidOut(buffer[it..next], o) && buffer[..it] == old(buffer[..it]) && buffer[next..] == old(buffer[next..])
    decreases o, 1
  {
    hide BigEndian, Written, BaseBytes, LaidOut;
    ghost var s := buffer[..];
    next := SerializeBase(o.base, buffer, it);
    if o.Struct? {
      next := SerializeLists(o, buffer, next);
    } else {
      next := SerializeTail(o, buffer, next);
    }
    WrittenThen(s, it, BaseBytes(o.base), Rest(o));
    SerIsLaidOut(o);
    WrittenIs(s, it, Ser(o));
    assert buffer[it..next] == buffer[..][it..next] && buffer[..it] == buffer[..][..it] && buffer[next..] == buffer[..][next..];
  }

  /** What primitives, arrays and strings add to the base. */
  method SerializeTail(o: Obj, buffer: array<byte>, it: nat) returns (next: nat)
    requires !o.Struct? && it + |Rest(o)| <= buffer.Length
    modifies buffer
    ensures next == it + |Rest(o)|
    ensures buffer[..] == Written(old(buffer[..]), it, Rest(o))
  {
    hide BigEndian, Written;
    ghost var s := buffer[..];
    OneByte(o.kind);
    next := EncodeInt(buffer, it, o.kind, 1);
    ghost var sofar := [o.kind];
    if !o.Primitive? {
      next := EncodeInt(buffer, next, o.length, 4);
      WrittenThen(s, it, sofar, BigEndian(o.length, 4));
      sofar := sofar + BigEndian(o.length, 4);
    }
    next := EncodeBytes(buffer, next, o.data);
    WrittenThen(s, it, sofar, o.data);
  }

  /** The four lists of a struct. */
  method SerializeLists(o: Obj, buffer: array<byte>, it: nat) returns (next: nat)
    requires o.Struct? && it + |Rest(o)| <= buffer.Length
    modifies buffer
    ensures next == it + |Rest(o)|
    ensures buffer[..] == Written(old(buffer[..]), it, Rest(o))
    decreases o, 0
  {
    hide BigEndian, Written, SerList;
    ghost var s := buffer[..];
    ghost var a, b, c, d := SerList(o.primitives), SerList(o.arrays), SerList(o.strings), SerList(o.structs);
    assert Rest(o) == a + b + c + d;
    next := SerializeSame(o.primitives, buffer, it);
    next := SerializeSame(o.arrays, buffer, next);
    WrittenThen(s, it, a, b);
    next := SerializeSame(o.strings, buffer, next);
    WrittenThen(s, it, a + b, c);
    next := SerializeSame(o.structs, buffer, next);
    WrittenThen(s, it, a + b + c, d);
  }

  /** serialize_same_entities: the number of entries and the entries. */
  method SerializeSame(os: seq<Obj>, buffer: array<byte>, it: nat) returns (next: nat)
    requires it + |SerList(os)| <= buffer.Length
    modifies buffer
    ensures next == it + |SerList(os)|
    ensures buffer[..] == Written(old(buffer[..]), it, SerList(os))
    decreases os, 1
  {
    hide BigEndian, Written, Ser, SerAll, LaidOut;
    ghost var s := buffer[..];
    next := EncodeInt(buffer, it, |os|, 8);
    ghost var sofar := BigEndian(|os|, 8);
    assert os[..0] == [];
    NoEntries();
    assert sofar + [] == sofar;
    for i := 0 to |os|
      invariant next == it + |sofar|
      invariant sofar == BigEndian(|os|, 8) + SerAll(os[..i]) && it + |sofar| <= |s|
      invariant buffer[..] == Written(s, it, sofar)
    {
      assert os[..i + 1] == os[..i] + [os[i]];
      SerAllExtend(os[..i], os[i]);
      SerAllPrefix(os, i + 1);
      WrittenThen(s, it, sofar, Ser(os[i]));
      next := Serialize(os[i], buffer, next);
      sofar := sofar + Ser(os[i]);
    }
    assert os[..|os|] == os;
  }

  lemma NoEntries()
    ensures SerAll([]) == []
  {
  }

  lemma {:induction false} SerAllExtend(os: seq<Obj>, o: Obj)
    ensures SerAll(os + [o]) == SerAll(os) + Ser(o)
  {
    hide Ser;
    var qs := os + [o];
    if os == [] {
      assert qs[1..] == [];
      assert SerAll(qs) == Ser(o) + SerAll(qs[1..]);
    } else {
      assert qs[0] == os[0] && qs[1..] == os[1..] + [o];
      SerAllExtend(os[1..], o);
    }
  }

  lemma {:induction false} SerAllPrefix(os: seq<Obj>, n: nat)
    requires n <= |os|
    ensures |SerAll(os[..n])| <= |SerAll(os)|
    decreases |os| - n
  {
    hide Ser, SerAll;
    if n < |os| {
      assert os[..n + 1] == os[..n] + [os[n]];
      SerAllExtend(os[..n], os[n]);
      SerAllPrefix(os, n + 1);
    } else {
      assert os[..n] == os;
    }
  }

  /** SerializeNSave up to the file: a buffer of size_ bytes. As long as the bytes of the object can be
      counted in 32 bits they fill that buffer exactly. */
  method SerializeAll(o: Obj) returns (buffer: array<byte>)
    requires Built(o) && |Ser(o)| < TWO32
    ensures buffer.Length == o.base.size && buffer[..] == Ser(o) && LaidOut(buffer[..], o)
  {
    hide Built, Ser, LaidOut;
    SerIsLaidOut(o);
    BufferFitsIff(o);
    buffer := new byte[o.base.size];
    var it := Serialize(o, buffer, 0);
  }
}
