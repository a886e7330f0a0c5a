/** Bytes and the two byte orders in which whole numbers are laid out. */
module Bytes {

  type byte = x: int | 0 <= x < 256

  function Pow256(k: nat): (p: nat)
    ensures p > 0
  {
    if k == 0 then 1 else 256 * Pow256(k - 1)
  }

  const TWO32: nat := 0x1_0000_0000

  /** A number in 32 bits. */
  function Mod32(n: nat): (r: nat)
    ensures r < TWO32
  {
    n % TWO32
  }

  lemma Pow256Values()
    ensures Pow256(0) == 1 && Pow256(1) == 256 && Pow256(2) == 65536 && Pow256(3) == 0x100_0000 && Pow256(4) == TWO32
  {
    assert Pow256(3) == 256 * Pow256(2);
    assert Pow256(2) == 256 * Pow256(1);
    assert Pow256(1) == 256 * Pow256(0);
  }

  // ----- least significant byte first

  function LittleEndian(v: nat, k: nat): (s: seq<byte>)
    ensures |s| == k
  {
    if k == 0 then [] else [v % 256] + LittleEndian(v / 256, k - 1)
  }

  function FromLittleEndian(s: seq<byte>): nat {
    if s == [] then 0 else s[0] + 256 * FromLittleEndian(s[1..])
  }

  /** Decoding k bytes gives the number back when it fits in them. */
  lemma {:induction false} LittleEndianRoundTrip(v: nat, k: nat)
    requires v < Pow256(k)
    ensures FromLittleEndian(LittleEndian(v, k)) == v
  {
    if k > 0 {
      LittleEndianRoundTrip(v / 256, k - 1);
      assert LittleEndian(v, k)[1..] == LittleEndian(v / 256, k - 1);
    }
  }

  /** Byte i is the number shifted right by i bytes. */
  lemma {:induction false} LittleEndianAt(v: nat, k: nat, i: nat)
    requires i < k
    ensures LittleEndian(v, k)[i] == v / Pow256(i) % 256
  {
    if i > 0 {
      LittleEndianAt(v / 256, k - 1, i - 1);
      DivideTwice(v, Pow256(i - 1));
    }
  }

  lemma {:induction false} FromLittleEndianBound(s: seq<byte>)
    ensures FromLittleEndian(s) < Pow256(|s|)
  {
    if s != [] {
      FromLittleEndianBound(s[1..]);
    }
  }

  /** Encoding what k bytes decode to gives those bytes back. */
  lemma {:induction false} LittleEndianIsInverse(s: seq<byte>)
    ensures LittleEndian(FromLittleEndian(s), |s|) == s
  {
    if s != [] {
      hide LittleEndian, FromLittleEndian;
      LittleEndianIsInverse(s[1..]);
      LowestFirst(s[0], FromLittleEndian(s[1..]), |s| - 1);
      FromLowestFirst(s);
      assert s == [s[0]] + s[1..];
    } else {
      assert LittleEndian(FromLittleEndian(s), 0) == [];
    }
  }

  lemma LowestFirst(x: byte, v: nat, k: nat)
    ensures LittleEndian(x + 256 * v, k + 1) == [x] + LittleEndian(v, k)
  {
    ModUnique(x + 256 * v, 256, v, x);
  }

  lemma FromLowestFirst(s: seq<byte>)
    requires s != []
    ensures FromLittleEndian(s) == s[0] + 256 * FromLittleEndian(s[1..])
  {
  }

  // ----- most significant byte first

  /** The low k bytes of v, which for negative v are those of its two's complement. */
  function BigEndian(v: int, k: nat): (s: seq<byte>)
    ensures |s| == k
    decreases k
  {
    if k == 0 then [] else BigEndian(v / 256, k - 1) + [v % 256]
  }

  function FromBigEndian(s: seq<byte>): nat {
    if s == [] then 0 else 256 * FromBigEndian(s[..|s| - 1]) + s[|s| - 1]
  }

  lemma ModUnique(v: int, m: int, q: int, r: int)
    requires m > 0 && v == q * m + r && 0 <= r < m
    ensures v % m == r && v / m == q
  {
    OneMultiple(v / m - q, m, r - v % m, v / m, q);
  }

  lemma OneMultiple(d: int, m: int, e: int, x: int, q: int)
    requires m > 0 && -m < e < m && d == x - q && x * m == q * m + e
    ensures d == 0 && e == 0
  {
    assert d * m == e;
    AtLeastOnce(d, m);
    AtLeastOnce(-d, m);
  }

  lemma AtLeastOnce(d: int, m: int)
    requires m > 0
    ensures d >= 1 ==> d * m >= m
  {
  }

  /** Dividing by 256 and then by m is dividing by 256 * m. */
  lemma DivideTwice(v: int, m: int)
    requires m > 0
    ensures v / 256 / m == v / (256 * m)
    ensures v % (256 * m) == 256 * ((v / 256) % m) + v % 256
  {
    var q, r := v / 256 / m, (v / 256) % m;
    assert v / 256 == q * m + r;
    assert v == q * (256 * m) + (256 * r + v % 256);
    ModUnique(v, 256 * m, q, 256 * r + v % 256);
  }

  /** k bytes decode to the number modulo 256^k, hence to the number itself if it fits. */
  lemma {:induction false} BigEndianRoundTrip(v: int, k: nat)
    ensures FromBigEndian(BigEndian(v, k)) == v % Pow256(k)
    decreases k
  {
    if k > 0 {
      BigEndianRoundTrip(v / 256, k - 1);
      assert BigEndian(v, k)[..k - 1] == BigEndian(v / 256, k - 1);
      DivideTwice(v, Pow256(k - 1));
    }
  }

  /** Byte i of k is the number shifted right by the k - 1 - i bytes behind it. */
  lemma {:induction false} BigEndianAt(v: int, k: nat, i: nat)
    requires i < k
    ensures BigEndian(v, k)[i] == v / Pow256(k - 1 - i) % 256
    decreases k
  {
    if i < k - 1 {
      BigEndianAt(v / 256, k - 1, i);
      DivideTwice(v, Pow256(k - 2 - i));
      assert Pow256(k - 1 - i) == 256 * Pow256(k - 2 - i);
    }
  }

  /** Encoding what k bytes decode to gives those bytes back. */
  lemma {:induction false} FromBigEndianRoundTrip(s: seq<byte>)
    ensures FromBigEndian(s) < Pow256(|s|) && BigEndian(FromBigEndian(s), |s|) == s
  {
    if s != [] {
      FromBigEndianRoundTrip(s[..|s| - 1]);
      var v := FromBigEndian(s);
      assert v / 256 == FromBigEndian(s[..|s| - 1]) && v % 256 == s[|s| - 1];
    }
  }

  // ----- bitwise or

  function Pow2(k: nat): (p: nat)
    ensures p > 0
  {
    if k == 0 then 1 else 2 * Pow2(k - 1)
  }

  function Or(a: nat, b: nat): nat
    decreases a + b
  {
    if a == 0 && b == 0 then 0
    else 2 * Or(a / 2, b / 2) + (if a % 2 == 1 || b % 2 == 1 then 1 else 0)
  }

  lemma {:induction false} OrDisjoint(c: nat, b: nat, k: nat)
    requires b < Pow2(k)
    ensures Or(c * Pow2(k), b) == c * Pow2(k) + b
  {
    var a := c * Pow2(k);
    if k == 0 {
      OrZero(a);
    } else if a != 0 || b != 0 {
      assert a == 2 * (c * Pow2(k - 1));
      OrDisjoint(c, b / 2, k - 1);
    }
  }

  lemma {:induction false} OrZero(a: nat)
    ensures Or(a, 0) == a
  {
    if a > 0 {
      OrZero(a / 2);
    }
  }

  lemma {:induction false} Pow256IsPow2(k: nat)
    ensures Pow256(k) == Pow2(8 * k)
  {
    if k > 0 {
      Pow256IsPow2(k - 1);
      var j := 8 * k - 8;
      assert Pow2(j + 8) == 2 * Pow2(j + 7) == 4 * Pow2(j + 6) == 8 * Pow2(j + 5) == 16 * Pow2(j + 4);
      assert Pow2(j + 4) == 2 * Pow2(j + 3) == 4 * Pow2(j + 2) == 8 * Pow2(j + 1) == 16 * Pow2(j);
    }
  }

  // ----- prefixes

  /** Two concatenations that agree, with first parts of one length, agree part by part. */
  lemma SplitEqual(a: seq<byte>, x: seq<byte>, b: seq<byte>, y: seq<byte>)
    requires a + x == b + y && |a| == |b|
    ensures a == b && x == y
  {
    assert a == (a + x)[..|a|] && b == (b + y)[..|b|];
    assert x == (a + x)[|a|..] && y == (b + y)[|b|..];
  }
}
