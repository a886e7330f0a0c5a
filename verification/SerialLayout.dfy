/** Where in the bytes of an object its fields and entries are. */
module SerialLayout {
  import opened Bytes
  import opened SerialFormat

  /** The bytes that the first i entries take. */
  function Offset(os: seq<Obj>, i: nat): nat
    requires i <= |os|
  {
    if i == 0 then 0 else Offset(os, i - 1) + |Ser(os[i - 1])|
  }

  /** Eight bytes of count at k, then entry after entry, up to end. */
  ghost predicate ListAt(s: seq<byte>, k: nat, os: seq<Obj>, end: nat) {
    && k + 8 <= end == k + 8 + Offset(os, |os|) <= |s|
    && s[k..k + 8] == BigEndian(|os|, 8)
    && forall i :: 0 <= i < |os| ==> EntryAt(s, k + 8 + Offset(os, i), os[i])
  }

  ghost predicate EntryAt(s: seq<byte>, k: nat, o: Obj) {
    k + |Ser(o)| <= |s| && s[k..k + |Ser(o)|] == Ser(o)
  }

  /** Size, name length, name and wrapper, at 0, 4, 8 and 8 + n for a name of n bytes. */
  ghost predicate BaseLaidOut(s: seq<byte>, b: Base) {
    var n := |b.name|;
    && 9 + n <= |s| && s[..4] == BigEndian(b.size, 4) && s[4..8] == BigEndian(b.nameLength, 4)
    && s[8..8 + n] == b.name && s[8 + n] == b.wrapper
  }

  /** Primitives: type at 9 + n, data from 10 + n on. Arrays and strings: type at 9 + n, length at 10 + n,
      data from 14 + n on. Structs: the primitives from 9 + n on, then the arrays, the strings and the
      structs, each list right behind the one before it. */
  ghost predicate LaidOut(s: seq<byte>, o: Obj) {
    var n := |o.base.name|;
    && BaseLaidOut(s, o.base)
    && (o.Primitive? ==> |s| == 10 + n + |o.data| && s[9 + n] == o.kind && s[10 + n..] == o.data)
    && (o.Array? || o.Str? ==>
          |s| == 14 + n + |o.data| && s[9 + n] == o.kind && s[10 + n..14 + n] == BigEndian(o.length, 4)
          && s[14 + n..] == o.data)
    && (o.Struct? ==>
          var a := 17 + n + Offset(o.primitives, |o.primitives|);
          var b := a + 8 + Offset(o.arrays, |o.arrays|);
          var c := b + 8 + Offset(o.strings, |o.strings|);
          && ListAt(s, 9 + n, o.primitives, a) && ListAt(s, a, o.arrays, b) && ListAt(s, b, o.strings, c)
          && ListAt(s, c, o.structs, |s|))
  }

  lemma OffsetTail(os: seq<Obj>, i: nat)
    requires 0 < i <= |os|
    ensures Offset(os, i) == |Ser(os[0])| + Offset(os[1..], i - 1)
  {
    hide Ser;
    if i > 1 {
      OffsetTail(os, i - 1);
    }
  }

  lemma {:induction false} OffsetIsLength(os: seq<Obj>)
    ensures Offset(os, |os|) == |SerAll(os)|
  {
    hide Ser;
    if os != [] {
      OffsetTail(os, |os|);
      OffsetIsLength(os[1..]);
    }
  }

  /** Entry i lies behind the i entries before it, whatever is around the list. */
  lemma {:induction false} EntryIsAt(x: seq<byte>, os: seq<Obj>, y: seq<byte>, i: nat)
    requires i < |os|
    ensures EntryAt(x + SerAll(os) + y, |x| + Offset(os, i), os[i])
    decreases i
  {
    hide Ser, SerAll;
    HeadAndTail(os);
    var h := Ser(os[0]);
    if i == 0 {
      assert x + (h + SerAll(os[1..])) + y == x + h + (SerAll(os[1..]) + y);
      Middle(x, h, SerAll(os[1..]) + y);
    } else {
      EntryIsAt(x + h, os[1..], y, i - 1);
      assert x + h + SerAll(os[1..]) + y == x + (h + SerAll(os[1..])) + y;
      OffsetTail(os, i);
    }
  }

  lemma HeadAndTail(os: seq<Obj>)
    requires os != []
    ensures SerAll(os) == Ser(os[0]) + SerAll(os[1..])
  {
  }

  lemma Middle(x: seq<byte>, h: seq<byte>, y: seq<byte>)
    ensures (x + h + y)[|x|..|x| + |h|] == h
  {
  }

  lemma ListIsAt(x: seq<byte>, os: seq<Obj>, y: seq<byte>)
    ensures ListAt(x + SerList(os) + y, |x|, os, |x| + |SerList(os)|)
  {
    hide Ser, SerAll, BigEndian, EntryAt, Offset;
    var count, all := BigEndian(|os|, 8), SerAll(os);
    OffsetIsLength(os);
    var s := x + SerList(os) + y;
    assert s == x + count + (all + y);
    Middle(x, count, all + y);
    forall i | 0 <= i < |os| ensures EntryAt(s, |x| + 8 + Offset(os, i), os[i]) {
      EntryIsAt(x + count, os, y, i);
      assert x + count + all + y == s;
    }
  }

  lemma BaseIsLaidOut(b: Base, rest: seq<byte>)
    ensures BaseLaidOut(BaseBytes(b) + rest, b)
  {
    hide BigEndian;
    var s := BaseBytes(b) + rest;
    var p, q := BigEndian(b.size, 4), BigEndian(b.nameLength, 4);
    assert s == p + q + b.name + [b.wrapper] + rest;
    assert s[..4] == p && s[4..8] == q && s[8..8 + |b.name|] == b.name;
  }

  lemma TailIsLaidOut(o: Obj)
    requires !o.Struct?
    ensures LaidOut(Ser(o), o)
  {
    hide BigEndian, BaseLaidOut;
    BaseIsLaidOut(o.base, Rest(o));
    var s, n, b := Ser(o), |o.base.name|, BaseBytes(o.base);
    assert |b| == 9 + n;
    if o.Primitive? {
      assert s == b + [o.kind] + o.data;
      assert s[10 + n..] == o.data;
    } else {
      assert s == b + [o.kind] + BigEndian(o.length, 4) + o.data;
      assert s[10 + n..14 + n] == BigEndian(o.length, 4) && s[14 + n..] == o.data;
    }
  }

  lemma StructIsLaidOut(o: Obj)
    requires o.Struct?
    ensures LaidOut(Ser(o), o)
  {
    hide BaseLaidOut, SerList, ListAt, Offset, BaseBytes;
    BaseIsLaidOut(o.base, Rest(o));
    BaseLength(o.base);
    var x, p, a, b, c := BaseBytes(o.base), SerList(o.primitives), SerList(o.arrays), SerList(o.strings), SerList(o.structs);
    var s := Ser(o);
    assert s == x + p + (a + b + c) && s == x + p + a + (b + c) && s == x + p + a + b + c && s == x + p + a + b + c + [] by {
      Assoc(x, p, a, b, c);
    }
    ListIsAt(x, o.primitives, a + b + c);
    ListIsAt(x + p, o.arrays, b + c);
    ListIsAt(x + p + a, o.strings, c);
    ListIsAt(x + p + a + b, o.structs, []);
    ListLength(o.primitives);
    ListLength(o.arrays);
    ListLength(o.strings);
    ListLength(o.structs);
  }

  lemma BaseLength(b: Base)
    ensures |BaseBytes(b)| == 9 + |b.name|
  {
  }

  lemma ListLength(os: seq<Obj>)
    ensures |SerList(os)| == 8 + Offset(os, |os|)
  {
    hide Ser, SerAll, Offset;
    OffsetIsLength(os);
  }

  lemma Assoc(x: seq<byte>, p: seq<byte>, a: seq<byte>, b: seq<byte>, c: seq<byte>)
    ensures x + (p + a + b + c) == x + p + (a + b + c) == x + p + a + (b + c) == x + p + a + b + c == x + p + a + b + c + []
  {
  }

  /** Every object's bytes are laid out so. */
  lemma SerIsLaidOut(o: Obj)
    ensures LaidOut(Ser(o), o)
  {
    if o.Struct? {
      StructIsLaidOut(o);
    } else {
      TailIsLaidOut(o);
    }
  }
}
