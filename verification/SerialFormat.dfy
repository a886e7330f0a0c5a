/** The self-describing objects, the bytes they stand for and what those bytes tell. */
module SerialFormat {
  import opened Bytes

  /** The fields every object has; size is the 32-bit running total the constructors keep. */
  datatype Base = Base(name: seq<byte>, nameLength: nat, wrapper: byte, size: nat)

  datatype Obj =
    | Primitive(base: Base, kind: byte, data: seq<byte>)
    | Array(base: Base, kind: byte, length: nat, data: seq<byte>)
    | Str(base: Base, kind: byte, length: nat, data: seq<byte>)
    | Struct(base: Base, primitives: seq<Obj>, arrays: seq<Obj>, strings: seq<Obj>, structs: seq<Obj>)

  const PRIMITIVE: byte := 1
  const ARRAY: byte := 2
  const STRING: byte := 3
  const STRUCT: byte := 4

  // ----- building objects

  /** The Object constructor: name, name length, size field, wrapper. */
  function NewBase(name: seq<byte>, wrapper: byte): Base {
    var n := Mod32(|name|);
    Base(name, n, wrapper, Mod32(n + 4 + 1 + 4))
  }

  /** size_ += more, in 32 bits. */
  function Grown(b: Base, more: nat): Base {
    b.(size := Mod32(b.size + more))
  }

  function NewPrimitive(name: seq<byte>, kind: byte, data: seq<byte>): Obj {
    Primitive(Grown(Grown(NewBase(name, PRIMITIVE), 1), |data|), kind, data)
  }

  function NewArray(name: seq<byte>, kind: byte, length: nat, data: seq<byte>): Obj {
    Array(Grown(Grown(NewBase(name, ARRAY), 5), |data|), kind, Mod32(length), data)
  }

  function NewString(name: seq<byte>, kind: byte, data: seq<byte>): Obj {
    Str(Grown(Grown(NewBase(name, STRING), 5), |data|), kind, Mod32(|data|), data)
  }

  function NewStruct(name: seq<byte>): Obj {
    Struct(Grown(NewBase(name, STRUCT), 32), [], [], [], [])
  }

  function Kind(o: Obj): byte {
    if o.Primitive? then PRIMITIVE else if o.Array? then ARRAY else if o.Str? then STRING else STRUCT
  }

  /** AddObject: the size grows and the object joins the list of its kind. */
  function Added(t: Obj, o: Obj): Obj
    requires t.Struct?
  {
    var b := Grown(t.base, o.base.size);
    if o.Primitive? then Struct(b, t.primitives + [o], t.arrays, t.strings, t.structs)
    else if o.Array? then Struct(b, t.primitives, t.arrays + [o], t.strings, t.structs)
    else if o.Str? then Struct(b, t.primitives, t.arrays, t.strings + [o], t.structs)
    else Struct(b, t.primitives, t.arrays, t.strings, t.structs + [o])
  }

  /** The sum of the size fields. */
  function Sizes(os: seq<Obj>): nat {
    if os == [] then 0 else Sizes(os[..|os| - 1]) + os[|os| - 1].base.size
  }

  /** What the size field counts, before it is cut to 32 bits. */
  function Counted(o: Obj): nat {
    |o.base.name| +
    if o.Primitive? then 10 + |o.data|
    else if o.Struct? then 41 + Sizes(o.primitives) + Sizes(o.arrays) + Sizes(o.strings) + Sizes(o.structs)
    else 14 + |o.data|
  }

  /** Objects as the constructors and AddObject leave them. */
  ghost predicate Built(o: Obj)
    decreases o, 1
  {
    && o.base.nameLength == Mod32(|o.base.name|)
    && o.base.wrapper == Kind(o)
    && o.base.size == Mod32(Counted(o))
    && (o.Array? || o.Str? ==> o.length < TWO32)
    && (o.Struct? ==> ListsBuilt(o))
  }

  ghost predicate ListsBuilt(o: Obj)
    requires o.Struct?
    decreases o, 0
  {
    && AllBuilt(o.primitives, PRIMITIVE) && AllBuilt(o.arrays, ARRAY)
    && AllBuilt(o.strings, STRING) && AllBuilt(o.structs, STRUCT)
  }

  ghost predicate AllBuilt(os: seq<Obj>, w: byte)
    decreases os, 0
  {
    forall x :: x in os ==> Kind(x) == w && Built(x)
  }

  lemma AllBuiltExtend(os: seq<Obj>, o: Obj)
    requires AllBuilt(os, Kind(o)) && Built(o)
    ensures AllBuilt(os + [o], Kind(o))
  {
    hide Built;
  }

  lemma SizesExtend(os: seq<Obj>, o: Obj)
    ensures Sizes(os + [o]) == Sizes(os) + o.base.size
  {
    assert (os + [o])[..|os|] == os;
  }

  lemma ModAdd(a: nat, b: nat, a': nat, b': nat)
    requires Mod32(a) == Mod32(a') && Mod32(b) == Mod32(b')
    ensures Mod32(a + b) == Mod32(a' + b')
  {
    var i, j := a / TWO32 - a' / TWO32, b / TWO32 - b' / TWO32;
    assert a + b == a' + b' + TWO32 * (i + j);
  }

  lemma Mod32Again(n: nat)
    ensures Mod32(Mod32(n)) == Mod32(n)
  {
  }

  lemma Mod32Small(n: nat)
    ensures Mod32(n) == n <==> n < TWO32
  {
  }

  lemma AddedCounts(t: Obj, o: Obj)
    requires t.Struct?
    ensures Counted(Added(t, o)) == Counted(t) + o.base.size
  {
    hide Sizes;
    if o.Primitive? { SizesExtend(t.primitives, o); }
    else if o.Array? { SizesExtend(t.arrays, o); }
    else if o.Str? { SizesExtend(t.strings, o); }
    else { SizesExtend(t.structs, o); }
  }

  lemma AddedLists(t: Obj, o: Obj)
    requires t.Struct? && ListsBuilt(t) && Built(o)
    ensures ListsBuilt(Added(t, o))
  {
    hide Built, AllBuilt;
    if o.Primitive? { AllBuiltExtend(t.primitives, o); }
    else if o.Array? { AllBuiltExtend(t.arrays, o); }
    else if o.Str? { AllBuiltExtend(t.strings, o); }
    else { AllBuiltExtend(t.structs, o); }
  }

  lemma AddedSize(t: Obj, o: Obj)
    requires t.Struct? && t.base.size == Mod32(Counted(t))
    ensures Added(t, o).base.size == Mod32(Counted(Added(t, o)))
  {
    hide Counted, Mod32;
    AddedCounts(t, o);
    Mod32Again(Counted(t));
    ModAdd(t.base.size, o.base.size, Counted(t), o.base.size);
  }

  /** Whatever is added, a struct stays as the invariant describes it. */
  lemma AddedIsBuilt(t: Obj, o: Obj)
    requires t.Struct? && Built(t) && Built(o)
    ensures Built(Added(t, o))
  {
    hide Counted, ListsBuilt;
    AddedLists(t, o);
    AddedSize(t, o);
    hide Added;
    AddedKeeps(t, o);
  }

  lemma AddedKeeps(t: Obj, o: Obj)
    requires t.Struct?
    ensures Added(t, o).Struct? && Added(t, o).base == Grown(t.base, o.base.size)
  {
  }

  lemma NewIsBuilt(name: seq<byte>, kind: byte, length: nat, data: seq<byte>)
    ensures Built(NewPrimitive(name, kind, data)) && Built(NewArray(name, kind, length, data))
    ensures Built(NewString(name, kind, data)) && Built(NewStruct(name))
  {
    hide Grown, NewBase, ListsBuilt;
    NewBaseGrown(name, PRIMITIVE, 1, |data|);
    NewBaseGrown(name, ARRAY, 5, |data|);
    NewBaseGrown(name, STRING, 5, |data|);
    NewBaseGrown(name, STRUCT, 32, 0);
    EmptyBuilt(NewStruct(name));
  }

  lemma EmptyBuilt(t: Obj)
    requires t.Struct? && t.primitives == [] && t.arrays == [] && t.strings == [] && t.structs == []
    ensures ListsBuilt(t) && Counted(t) == |t.base.name| + 41
  {
  }

  lemma NewBaseGrown(name: seq<byte>, wrapper: byte, a: nat, b: nat)
    ensures Grown(Grown(NewBase(name, wrapper), a), b)
            == Base(name, Mod32(|name|), wrapper, Mod32(|name| + 9 + a + b))
    ensures Grown(Grown(NewBase(name, wrapper), a), 0) == Grown(NewBase(name, wrapper), a)
  {
    hide Mod32;
    var n := |name|;
    Mod32Again(n);
    ModAdd(Mod32(n), 9, n, 9);
    GrownTwice(n + 9, a, b);
    Mod32Again(Mod32(Mod32(n) + 9) + a);
  }

  lemma GrownTwice(n: nat, a: nat, b: nat)
    ensures Mod32(Mod32(Mod32(n) + a) + b) == Mod32(n + a + b)
  {
    hide Mod32;
    Mod32Again(n);
    ModAdd(Mod32(n), a, n, a);
    Mod32Again(n + a);
    ModAdd(Mod32(Mod32(n) + a), b, n + a, b);
  }

  // ----- the bytes

  function BaseBytes(b: Base): seq<byte> {
    BigEndian(b.size, 4) + BigEndian(b.nameLength, 4) + b.name + [b.wrapper]
  }

  function Ser(o: Obj): seq<byte>
    decreases o, 1
  {
    BaseBytes(o.base) + Rest(o)
  }

  /** What follows the base: type and data, or the four lists. */
  function Rest(o: Obj): seq<byte>
    decreases o, 0
  {
    if o.Primitive? then [o.kind] + o.data
    else if o.Struct? then SerList(o.primitives) + SerList(o.arrays) + SerList(o.strings) + SerList(o.structs)
    else [o.kind] + BigEndian(o.length, 4) + o.data
  }

  /** The number of entries, then the entries. */
  function SerList(os: seq<Obj>): seq<byte>
    decreases os, 1
  {
    BigEndian(|os|, 8) + SerAll(os)
  }

  function SerAll(os: seq<Obj>): seq<byte>
    decreases os, 0
  {
    if os == [] then [] else Ser(os[0]) + SerAll(os[1..])
  }

  lemma SerLength(o: Obj)
    ensures |Ser(o)| == |o.base.name| + 9 + |Rest(o)|
    ensures |Rest(o)| ==
      if o.Primitive? then 1 + |o.data|
      else if o.Struct? then 32 + |SerAll(o.primitives)| + |SerAll(o.arrays)| + |SerAll(o.strings)| + |SerAll(o.structs)|
      else 5 + |o.data|
  {
    hide SerAll, BigEndian;
  }

  // ----- the size field counts the bytes

  /** The size field is the number of bytes written, modulo 2^32. */
  lemma {:induction false} SizeIsLength(o: Obj)
    requires Built(o)
    ensures o.base.size == Mod32(|Ser(o)|)
    decreases o, 2
  {
    hide Ser, Rest, SerAll, Sizes, AllBuilt, Mod32;
    SerLength(o);
    if o.Struct? {
      SizesAreLength(o.primitives, PRIMITIVE);
      SizesAreLength(o.arrays, ARRAY);
      SizesAreLength(o.strings, STRING);
      SizesAreLength(o.structs, STRUCT);
      var n := |o.base.name| + 41;
      SumOfMods(n, Sizes(o.primitives), |SerAll(o.primitives)|, Sizes(o.arrays), |SerAll(o.arrays)|,
                Sizes(o.strings), |SerAll(o.strings)|, Sizes(o.structs), |SerAll(o.structs)|);
    }
  }

  lemma SumOfMods(n: nat, a: nat, a': nat, b: nat, b': nat, c: nat, c': nat, d: nat, d': nat)
    requires Mod32(a) == Mod32(a') && Mod32(b) == Mod32(b') && Mod32(c) == Mod32(c') && Mod32(d) == Mod32(d')
    ensures Mod32(n + a + b + c + d) == Mod32(n + a' + b' + c' + d')
  {
    hide Mod32;
    ModAdd(n, a, n, a');
    ModAdd(n + a, b, n + a', b');
    ModAdd(n + a + b, c, n + a' + b', c');
    ModAdd(n + a + b + c, d, n + a' + b' + c', d');
  }

  lemma {:induction false} SizesAreLength(os: seq<Obj>, w: byte)
    requires AllBuilt(os, w)
    ensures Mod32(Sizes(os)) == Mod32(|SerAll(os)|)
    decreases os, 0
  {
    hide Ser, Built, Sizes, Mod32;
    if os != [] {
      SizeIsLength(os[0]);
      SizesAreLength(os[1..], w);
      SizesHead(os);
      Mod32Again(|Ser(os[0])|);
      ModAdd(os[0].base.size, Sizes(os[1..]), |Ser(os[0])|, |SerAll(os[1..])|);
    } else {
      assert Sizes(os) == 0 by { SizesEmpty(); }
    }
  }

  lemma SizesEmpty()
    ensures Sizes([]) == 0
  {
  }

  lemma {:induction false} SizesHead(os: seq<Obj>)
    requires os != []
    ensures Sizes(os) == os[0].base.size + Sizes(os[1..])
  {
    if |os| > 1 {
      SizesHead(os[..|os| - 1]);
      assert os[1..][..|os| - 2] == os[..|os| - 1][1..];
    } else {
      assert os[..0] == [] && os[1..] == [];
    }
  }

  /** The buffer SerializeNSave allocates is exactly as long as what is written into it, unless
      2^32 bytes or more are written. */
  lemma BufferFitsIff(o: Obj)
    requires Built(o)
    ensures o.base.size == |Ser(o)| <==> |Ser(o)| < TWO32
  {
    hide Ser, Built, Mod32;
    SizeIsLength(o);
    Mod32Small(|Ser(o)|);
  }

  // ----- the bytes determine the object

  lemma EncodingsEqual(a: nat, b: nat, k: nat)
    requires a < Pow256(k) && b < Pow256(k) && BigEndian(a, k) == BigEndian(b, k)
    ensures a == b
  {
    BigEndianRoundTrip(a, k);
    BigEndianRoundTrip(b, k);
    ModUnique(a, Pow256(k), 0, a);
    ModUnique(b, Pow256(k), 0, b);
  }

  ghost predicate Small(o: Obj) {
    Built(o) && |Ser(o)| < TWO32
  }

  lemma Assoc4(a: seq<byte>, b: seq<byte>, c: seq<byte>, d: seq<byte>, e: seq<byte>)
    ensures a + b + c + d + e == a + (b + (c + (d + e)))
  {
  }

  lemma Assoc3(a: seq<byte>, b: seq<byte>, c: seq<byte>, d: seq<byte>)
    ensures a + b + c + d == a + (b + (c + d))
  {
  }

  /** Two base headers at the start of the same bytes are the same, whatever follows. */
  lemma BaseUnique(a: Base, b: Base, x: seq<byte>, y: seq<byte>)
    requires BaseBytes(a) + x == BaseBytes(b) + y
    requires a.size < TWO32 && b.size < TWO32
    requires a.nameLength == |a.name| < TWO32 && b.nameLength == |b.name| < TWO32
    ensures a == b && x == y
  {
    hide BigEndian;
    Pow256Values();
    Assoc4(BigEndian(a.size, 4), BigEndian(a.nameLength, 4), a.name, [a.wrapper], x);
    Assoc4(BigEndian(b.size, 4), BigEndian(b.nameLength, 4), b.name, [b.wrapper], y);
    SplitEqual(BigEndian(a.size, 4), BigEndian(a.nameLength, 4) + (a.name + ([a.wrapper] + x)),
               BigEndian(b.size, 4), BigEndian(b.nameLength, 4) + (b.name + ([b.wrapper] + y)));
    EncodingsEqual(a.size, b.size, 4);
    SplitEqual(BigEndian(a.nameLength, 4), a.name + ([a.wrapper] + x), BigEndian(b.nameLength, 4), b.name + ([b.wrapper] + y));
    EncodingsEqual(a.nameLength, b.nameLength, 4);
    SplitEqual(a.name, [a.wrapper] + x, b.name, [b.wrapper] + y);
    SplitEqual([a.wrapper], x, [b.wrapper], y);
  }

  /** The format is uniquely decodable and self-delimiting: from bytes that start with a serialized
      object, that object and what follows it can be told. */
  lemma {:induction false} UniquelyDecodable(a: Obj, b: Obj, x: seq<byte>, y: seq<byte>)
    requires Small(a) && Small(b) && Ser(a) + x == Ser(b) + y
    ensures a == b && x == y
    decreases a, 3
  {
    hide *;
    ShortFields(a);
    ShortFields(b);
    SerStarts(a, x);
    SerStarts(b, y);
    BaseUnique(a.base, b.base, Rest(a) + x, Rest(b) + y);
    SameConstructor(a, b);
    SameLength(a, b);
    SplitEqual(Rest(a), x, Rest(b), y);
    RestUnique(a, b);
  }

  lemma SerStarts(o: Obj, x: seq<byte>)
    ensures Ser(o) + x == BaseBytes(o.base) + (Rest(o) + x)
  {
    hide Rest, BaseBytes;
    assert Ser(o) == BaseBytes(o.base) + Rest(o);
  }

  lemma ShortFields(o: Obj)
    requires Small(o)
    ensures o.base.nameLength == |o.base.name| < TWO32 && o.base.size == |Ser(o)| < TWO32
    ensures o.Array? || o.Str? ==> o.length < TWO32
    ensures o.Struct? ==> AllSmall(o.primitives, PRIMITIVE) && AllSmall(o.arrays, ARRAY)
                          && AllSmall(o.strings, STRING) && AllSmall(o.structs, STRUCT)
  {
    hide Ser, Rest, SerAll, Counted, AllBuilt, Mod32;
    SizeIsLength(o);
    SerLength(o);
    Mod32Small(|Ser(o)|);
    Mod32Small(|o.base.name|);
  }

  lemma SameConstructor(a: Obj, b: Obj)
    requires Small(a) && Small(b) && a.base == b.base
    ensures Kind(a) == Kind(b)
  {
    hide Ser, Counted, ListsBuilt;
  }

  lemma SameLength(a: Obj, b: Obj)
    requires Small(a) && Small(b) && a.base == b.base
    ensures |Rest(a)| == |Rest(b)|
  {
    hide *;
    ShortFields(a);
    ShortFields(b);
    SerLength(a);
    SerLength(b);
  }

  lemma {:induction false} RestUnique(a: Obj, b: Obj)
    requires Small(a) && Small(b) && a.base == b.base && Kind(a) == Kind(b) && Rest(a) == Rest(b)
    ensures a == b
    decreases a, 2
  {
    if a.Primitive? {
      hide Ser, Built, SerList;
      SplitEqual([a.kind], a.data, [b.kind], b.data);
    } else if a.Struct? {
      ListsUnique(a, b);
      hide Small, Rest;
    } else {
      hide Small, SerList;
      ShortFields(a);
      ShortFields(b);
      TailUnique(a.kind, a.length, a.data, b.kind, b.length, b.data);
    }
  }

  lemma TailUnique(kind: byte, length: nat, data: seq<byte>, kind': byte, length': nat, data': seq<byte>)
    requires length < TWO32 && length' < TWO32
    requires [kind] + BigEndian(length, 4) + data == [kind'] + BigEndian(length', 4) + data'
    ensures kind == kind' && length == length' && data == data'
  {
    hide BigEndian;
    Pow256Values();
    SplitEqual([kind] + BigEndian(length, 4), data, [kind'] + BigEndian(length', 4), data');
    SplitEqual([kind], BigEndian(length, 4), [kind'], BigEndian(length', 4));
    EncodingsEqual(length, length', 4);
  }

  lemma {:induction false} ListsUnique(a: Obj, b: Obj)
    requires a.Struct? && b.Struct? && Small(a) && Small(b) && Rest(a) == Rest(b)
    ensures a.primitives == b.primitives && a.arrays == b.arrays && a.strings == b.strings && a.structs == b.structs
    decreases a, 1
  {
    hide Ser, SerList, Small;
    ShortFields(a);
    ShortFields(b);
    var a1, a2, a3, a4 := SerList(a.primitives), SerList(a.arrays), SerList(a.strings), SerList(a.structs);
    var b1, b2, b3, b4 := SerList(b.primitives), SerList(b.arrays), SerList(b.strings), SerList(b.structs);
    Assoc3(a1, a2, a3, a4);
    Assoc3(b1, b2, b3, b4);
    ListUnique(a.primitives, b.primitives, PRIMITIVE, a2 + (a3 + a4), b2 + (b3 + b4));
    ListUnique(a.arrays, b.arrays, ARRAY, a3 + a4, b3 + b4);
    ListUnique(a.strings, b.strings, STRING, a4, b4);
    assert a4 + [] == a4 && b4 + [] == b4;
    ListUnique(a.structs, b.structs, STRUCT, [], []);
  }

  ghost predicate AllSmall(os: seq<Obj>, w: byte) {
    AllBuilt(os, w) && |SerAll(os)| < TWO32
  }

  lemma {:induction false} ListUnique(os: seq<Obj>, qs: seq<Obj>, w: byte, x: seq<byte>, y: seq<byte>)
    requires AllSmall(os, w) && AllSmall(qs, w) && SerList(os) + x == SerList(qs) + y
    ensures os == qs && x == y
    decreases os, 2
  {
    hide SerAll, BigEndian, AllBuilt;
    assert SerList(os) + x == BigEndian(|os|, 8) + (SerAll(os) + x);
    assert SerList(qs) + y == BigEndian(|qs|, 8) + (SerAll(qs) + y);
    SplitEqual(BigEndian(|os|, 8), SerAll(os) + x, BigEndian(|qs|, 8), SerAll(qs) + y);
    AtLeastOneByteEach(os);
    AtLeastOneByteEach(qs);
    Pow256Large();
    EncodingsEqual(|os|, |qs|, 8);
    EntriesUnique(os, qs, w, x, y);
  }

  lemma Pow256Large()
    ensures Pow256(8) > TWO32
  {
    Pow256Values();
    assert Pow256(5) == 256 * Pow256(4);
    assert Pow256(6) == 256 * Pow256(5);
    assert Pow256(7) == 256 * Pow256(6);
  }

  lemma {:induction false} AtLeastOneByteEach(os: seq<Obj>)
    ensures |SerAll(os)| >= |os|
  {
    hide Ser;
    if os != [] {
      SerLength(os[0]);
      AtLeastOneByteEach(os[1..]);
    }
  }

  lemma AllSmallTail(os: seq<Obj>, w: byte)
    requires AllSmall(os, w) && os != []
    ensures Small(os[0]) && AllSmall(os[1..], w)
    ensures SerAll(os) == Ser(os[0]) + SerAll(os[1..])
  {
    hide Ser, Built;
  }

  lemma {:induction false} EntriesUnique(os: seq<Obj>, qs: seq<Obj>, w: byte, x: seq<byte>, y: seq<byte>)
    requires |os| == |qs| && SerAll(os) + x == SerAll(qs) + y
    requires AllSmall(os, w) && AllSmall(qs, w)
    ensures os == qs && x == y
    decreases os, 1
  {
    hide Ser, Small, AllSmall;
    if os != [] {
      AllSmallTail(os, w);
      AllSmallTail(qs, w);
      hide SerAll;
      var a, b := SerAll(os[1..]), SerAll(qs[1..]);
      assert SerAll(os) + x == Ser(os[0]) + (a + x) && SerAll(qs) + y == Ser(qs[0]) + (b + y);
      UniquelyDecodable(os[0], qs[0], a + x, b + y);
      EntriesUnique(os[1..], qs[1..], w, x, y);
      assert os == [os[0]] + os[1..] && qs == [qs[0]] + qs[1..];
    } else {
      assert SerAll(os) == [] && SerAll(qs) == [];
      assert x == SerAll(os) + x && y == SerAll(qs) + y;
    }
  }

  // ----- the order of insertion shows only within one kind

  function AddAll(t: Obj, os: seq<Obj>): (r: Obj)
    requires t.Struct?
    ensures r.Struct?
  {
    if os == [] then t else Added(AddAll(t, os[..|os| - 1]), os[|os| - 1])
  }

  function OfKind(os: seq<Obj>, w: byte): seq<Obj> {
    if os == [] then []
    else OfKind(os[..|os| - 1], w) + if Kind(os[|os| - 1]) == w then [os[|os| - 1]] else []
  }

  lemma OfKindExtend(os: seq<Obj>, o: Obj, w: byte)
    ensures OfKind(os + [o], w) == OfKind(os, w) + if Kind(o) == w then [o] else []
    ensures Sizes(OfKind(os + [o], w)) == Sizes(OfKind(os, w)) + if Kind(o) == w then o.base.size else 0
  {
    assert (os + [o])[..|os|] == os;
    SizesExtend(OfKind(os, w), o);
    assert OfKind(os, w) + [] == OfKind(os, w);
  }

  lemma {:induction false} AddAllIs(t: Obj, os: seq<Obj>)
    requires t.Struct? && t.base.size < TWO32
    ensures AddAll(t, os) == Struct(Grown(t.base, Sizes(os)), t.primitives + OfKind(os, PRIMITIVE), t.arrays + OfKind(os, ARRAY),
                                    t.strings + OfKind(os, STRING), t.structs + OfKind(os, STRUCT))
  {
    hide Sizes, OfKind, Mod32, Added;
    if os != [] {
      var before, o := os[..|os| - 1], os[|os| - 1];
      assert os == before + [o];
      AddAllIs(t, before);
      SizesExtend(before, o);
      Mod32Again(t.base.size + Sizes(before));
      ModAdd(Mod32(t.base.size + Sizes(before)), o.base.size, t.base.size + Sizes(before), o.base.size);
      OfKindExtend(before, o, PRIMITIVE);
      OfKindExtend(before, o, ARRAY);
      OfKindExtend(before, o, STRING);
      OfKindExtend(before, o, STRUCT);
      AddedJoins(AddAll(t, before), o);
    } else {
      EmptyOfKind();
      Mod32Small(t.base.size);
      assert t.primitives + [] == t.primitives && t.arrays + [] == t.arrays;
      assert t.strings + [] == t.strings && t.structs + [] == t.structs;
    }
  }

  lemma EmptyOfKind()
    ensures Sizes([]) == 0 && OfKind([], PRIMITIVE) == [] && OfKind([], ARRAY) == []
    ensures OfKind([], STRING) == [] && OfKind([], STRUCT) == []
  {
  }

  function Only(o: Obj, w: byte): seq<Obj> {
    if Kind(o) == w then [o] else []
  }

  lemma AddedJoins(t: Obj, o: Obj)
    requires t.Struct?
    ensures Added(t, o) == Struct(Grown(t.base, o.base.size), t.primitives + Only(o, PRIMITIVE), t.arrays + Only(o, ARRAY),
                                  t.strings + Only(o, STRING), t.structs + Only(o, STRUCT))
  {
    assert t.primitives + [] == t.primitives && t.arrays + [] == t.arrays;
    assert t.strings + [] == t.strings && t.structs + [] == t.structs;
  }

  lemma {:induction false} SizesByKind(os: seq<Obj>)
    ensures Sizes(os) == Sizes(OfKind(os, PRIMITIVE)) + Sizes(OfKind(os, ARRAY)) + Sizes(OfKind(os, STRING))
                         + Sizes(OfKind(os, STRUCT))
  {
    hide Sizes, OfKind;
    if os != [] {
      var before, o := os[..|os| - 1], os[|os| - 1];
      assert os == before + [o];
      SizesByKind(before);
      SizesExtend(before, o);
      OfKindExtend(before, o, PRIMITIVE);
      OfKindExtend(before, o, ARRAY);
      OfKindExtend(before, o, STRING);
      OfKindExtend(before, o, STRUCT);
    } else {
      EmptyOfKind();
    }
  }

  /** Two orders of insertion that agree kind by kind build the same struct: same size, same bytes. */
  lemma SameKindsSameStruct(t: Obj, os: seq<Obj>, qs: seq<Obj>)
    requires t.Struct? && t.base.size < TWO32
    requires OfKind(os, PRIMITIVE) == OfKind(qs, PRIMITIVE) && OfKind(os, ARRAY) == OfKind(qs, ARRAY)
    requires OfKind(os, STRING) == OfKind(qs, STRING) && OfKind(os, STRUCT) == OfKind(qs, STRUCT)
    ensures AddAll(t, os) == AddAll(t, qs) && Ser(AddAll(t, os)) == Ser(AddAll(t, qs))
  {
    hide *;
    AddAllIs(t, os);
    AddAllIs(t, qs);
    SizesByKind(os);
    SizesByKind(qs);
  }

  /** The converse: built from nothing, the same bytes mean the same insertions kind by kind. */
  lemma SameBytesSameKinds(name: seq<byte>, os: seq<Obj>, qs: seq<Obj>)
    requires (forall o :: o in os ==> Built(o)) && (forall q :: q in qs ==> Built(q))
    requires |Ser(AddAll(NewStruct(name), os))| < TWO32
    requires Ser(AddAll(NewStruct(name), os)) == Ser(AddAll(NewStruct(name), qs))
    ensures OfKind(os, PRIMITIVE) == OfKind(qs, PRIMITIVE) && OfKind(os, ARRAY) == OfKind(qs, ARRAY)
    ensures OfKind(os, STRING) == OfKind(qs, STRING) && OfKind(os, STRUCT) == OfKind(qs, STRUCT)
  {
    hide Built, AddAll, Ser, OfKind, Sizes;
    var t := NewStruct(name);
    NewIsBuilt(name, 0, 0, []);
    AddAllIsBuilt(t, os);
    AddAllIsBuilt(t, qs);
    UniquelyDecodable(AddAll(t, os), AddAll(t, qs), [], []);
    AddAllIs(t, os);
    AddAllIs(t, qs);
    assert [] + OfKind(os, PRIMITIVE) == OfKind(os, PRIMITIVE) && [] + OfKind(qs, PRIMITIVE) == OfKind(qs, PRIMITIVE);
    assert [] + OfKind(os, ARRAY) == OfKind(os, ARRAY) && [] + OfKind(qs, ARRAY) == OfKind(qs, ARRAY);
    assert [] + OfKind(os, STRING) == OfKind(os, STRING) && [] + OfKind(qs, STRING) == OfKind(qs, STRING);
    assert [] + OfKind(os, STRUCT) == OfKind(os, STRUCT) && [] + OfKind(qs, STRUCT) == OfKind(qs, STRUCT);
  }

  lemma {:induction false} AddAllIsBuilt(t: Obj, os: seq<Obj>)
    requires t.Struct? && Built(t) && forall o :: o in os ==> Built(o)
    ensures Built(AddAll(t, os))
  {
    hide Built, Added;
    if os != [] {
      AddAllIsBuilt(t, os[..|os| - 1]);
      AddedIsBuilt(AddAll(t, os[..|os| - 1]), os[|os| - 1]);
    }
  }
}
