/**
  Big-endian byte strings, as binary property lists store every integer: object payloads,
  object references, the offset table and the trailer.
 */
module Bytes {

  type Byte = x: int | 0 <= x < 0x100

  /** A UTF-16 code unit */
  type Unit = x: int | 0 <= x < 0x1_0000

  const TWO_32: int := 0x1_0000_0000
  const TWO_63: int := 0x8000_0000_0000_0000
  const TWO_64: int := 0x1_0000_0000_0000_0000

  function Pow2(k: nat): (p: nat)
    ensures p > 0
  {
    if k == 0 then 1 else 2 * Pow2(k - 1)
  }

  /** The number of values that fit in `w` bytes. */
  function Pow256(w: nat): (p: nat)
    ensures p > 0
  {
    if w == 0 then 1 else 256 * Pow256(w - 1)
  }

  /** The low `w` bytes of `n`, most significant first. */
  function BigEndian(n: nat, w: nat): (s: seq<Byte>)
    ensures |s| == w
  {
    if w == 0 then [] else BigEndian(n / 256, w - 1) + [n % 256]
  }

  /** The number a big-endian byte string stands for, with no bound on its length. */
  function Unsigned(s: seq<Byte>): nat
  {
    if s == [] then 0 else 256 * Unsigned(s[..|s| - 1]) + s[|s| - 1]
  }

  /** What `_getSizedInt` returns: a 64-bit accumulator keeps only the low 64 bits. */
  function SizedInt(s: seq<Byte>): (r: nat)
    ensures r < TWO_64
  {
    Unsigned(s) % TWO_64
  }

  lemma Pow256Facts()
    ensures Pow256(1) == 0x100 && Pow256(2) == 0x1_0000 && Pow256(4) == TWO_32 && Pow256(8) == TWO_64
  {
    assert Pow256(3) == 0x100_0000;
    assert Pow256(5) == 0x100_0000_0000;
    assert Pow256(6) == 0x1_0000_0000_0000;
    assert Pow256(7) == 0x100_0000_0000_0000;
  }

  lemma {:induction false} UnsignedBound(s: seq<Byte>)
    ensures Unsigned(s) < Pow256(|s|)
  {
    if s != [] {
      UnsignedBound(s[..|s| - 1]);
    }
  }

  /** Writing `n` in `w` bytes and reading it back gives `n`, whenever `n` fits. */
  lemma {:induction false} UnsignedOfBigEndian(n: nat, w: nat)
    requires n < Pow256(w)
    ensures Unsigned(BigEndian(n, w)) == n
  {
    if w > 0 {
      UnsignedOfBigEndian(n / 256, w - 1);
      var s := BigEndian(n, w);
      assert s[..|s| - 1] == BigEndian(n / 256, w - 1);
    }
  }

  /** Cutting the leading bytes off a wide integer leaves the narrow encoding of it. */
  lemma {:induction false} BigEndianTail(n: nat, w: nat, k: nat)
    requires k <= w
    ensures BigEndian(n, w)[w - k..] == BigEndian(n, k)
  {
    if k > 0 {
      BigEndianTail(n / 256, w - 1, k - 1);
      assert BigEndian(n, w)[w - k..] == BigEndian(n / 256, w - 1)[w - k..] + [n % 256];
    } else {
      assert BigEndian(n, w)[w..] == [];
    }
  }

  lemma SizedIntOfBigEndian(n: nat, w: nat)
    requires n < Pow256(w) && n < TWO_64
    ensures SizedInt(BigEndian(n, w)) == n
  {
    UnsignedOfBigEndian(n, w);
  }

  lemma {:induction false} Pow256Add(a: nat, b: nat)
    ensures Pow256(a + b) == Pow256(a) * Pow256(b)
  {
    if a > 0 {
      Pow256Add(a - 1, b);
      assert Pow256(a + b) == 256 * (Pow256(a - 1) * Pow256(b)) == (256 * Pow256(a - 1)) * Pow256(b);
    }
  }

  lemma {:induction false} UnsignedConcat(s: seq<Byte>, u: seq<Byte>)
    ensures Unsigned(s + u) == Unsigned(s) * Pow256(|u|) + Unsigned(u)
  {
    if u == [] {
      assert s + u == s;
    } else {
      var v := u[..|u| - 1];
      UnsignedConcat(s, v);
      assert (s + u)[..|s + u| - 1] == s + v;
      assert 256 * (Unsigned(s) * Pow256(|v|)) == Unsigned(s) * Pow256(|u|);
    }
  }

  /** One step of the accumulator: shifting left by eight bits and adding a byte, modulo 2^64. */
  lemma AccumulateByte(u: nat, d: Byte)
    ensures (256 * (u % TWO_64) + d) % TWO_64 == (256 * u + d) % TWO_64
  {
    var q := u / TWO_64;
    assert 256 * u + d == 256 * (u % TWO_64) + d + TWO_64 * (256 * q);
    ModShift(256 * (u % TWO_64) + d, 256 * q, TWO_64);
  }

  lemma ModShift(x: nat, k: nat, m: nat)
    requires m > 0
    ensures (x + m * k) % m == x % m
  {
    var a, b := x / m, x % m;
    assert x + m * k == m * (a + k) + b;
    ModUnique(x + m * k, m, a + k, b);
  }

  lemma ModUnique(x: nat, m: nat, q: nat, r: nat)
    requires r < m && x == m * q + r
    ensures x % m == r && x / m == q
  {
    var q', r' := x / m, x % m;
    assert x == m * q' + r';
    if q > q' {
      MulGap(m, q', q);
    } else if q < q' {
      MulGap(m, q, q');
    }
  }

  lemma MulNext(a: nat, s: nat)
    ensures (a + 1) * s == a * s + s
  {
  }

  lemma MulGap(m: nat, a: nat, b: nat)
    requires a < b
    ensures m * a + m <= m * b
  {
    var k := b - a - 1;
    assert b == a + 1 + k;
    assert m * b == m * (a + 1) + m * k;
    assert m * (a + 1) == m * a + m;
    assert 0 <= m * k;
  }

  /** `CFSwapInt16BigToHost`, `CFSwapInt32BigToHost` and `CFSwapInt64BigToHost`: a word of 2 * n bytes from its halves. */
  function Halves(high: nat, low: nat, n: nat): nat {
    high * Pow256(n) + low
  }

  /** The unaligned loads for sizes that are powers of two: the word in memory order, read as big-endian. */
  function Word(s: seq<Byte>): nat
    requires |s| in {1, 2, 4, 8}
  {
    if |s| == 1 then s[0]
    else Halves(Word(s[..|s| / 2]), Word(s[|s| / 2..]), |s| / 2)
  }

  lemma {:induction false} WordIsUnsigned(s: seq<Byte>)
    requires |s| in {1, 2, 4, 8}
    ensures Word(s) == Unsigned(s)
  {
    if |s| == 1 {
      assert s[..0] == [];
    } else {
      var high, low := s[..|s| / 2], s[|s| / 2..];
      WordIsUnsigned(high);
      WordIsUnsigned(low);
      UnsignedConcat(high, low);
      assert s == high + low;
    }
  }

  /** `_getSizedInt`: loads for 1, 2, 4 and 8 bytes, else the byte loop with the wrap-around of its 64-bit accumulator. */
  method GetSizedInt(data: seq<Byte>, at: nat, valSize: nat) returns (res: nat)
    requires at + valSize <= |data|
    ensures res == SizedInt(data[at..at + valSize])
  {
    if valSize == 1 || valSize == 2 || valSize == 4 || valSize == 8 {
      res := LoadWord(data[at..at + valSize]);
    } else {
      res := GetByBytes(data, at, valSize);
    }
  }

  method LoadWord(s: seq<Byte>) returns (res: nat)
    requires |s| in {1, 2, 4, 8}
    ensures res == SizedInt(s)
  {
    hide Word, Unsigned, Pow256;
    WordIsUnsigned(s);
    UnsignedBound(s);
    Pow256Small(|s|);
    res := Word(s);
  }

  lemma Pow256Small(w: nat)
    requires w in {1, 2, 4, 8}
    ensures Pow256(w) <= TWO_64
  {
    Pow256Facts();
  }

  method GetByBytes(data: seq<Byte>, at: nat, valSize: nat) returns (res: nat)
    requires at + valSize <= |data|
    ensures res == SizedInt(data[at..at + valSize])
  {
    res := 0;
    var idx := 0;
    while idx < valSize
      invariant 0 <= idx <= valSize
      invariant res == SizedInt(data[at..at + idx])
    {
      AccumulateByte(Unsigned(data[at..at + idx]), data[at + idx]);
      var s := data[at..at + idx + 1];
      assert s[..|s| - 1] == data[at..at + idx];
      res := (res * 256 + data[at + idx]) % TWO_64;
      idx := idx + 1;
    }
  }
}
