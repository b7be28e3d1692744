/** Bytes in memory and the little-endian integers the kernel loads from and stores to them. */
module Bytes {
  import opened Arith

  type byte = x: int | 0 <= x < 0x100
  type u16 = x: int | 0 <= x < 0x1_0000
  type u32 = x: int | 0 <= x < 0x1_0000_0000

  const U32: nat := 0x1_0000_0000

  function Load16(d: seq<byte>, at: nat): u16
    requires at + 2 <= |d|
  {
    d[at] as int + 0x100 * (d[at + 1] as int)
  }

  function Load32(d: seq<byte>, at: nat): u32
    requires at + 4 <= |d|
  {
    d[at] as int + 0x100 * (d[at + 1] as int) + 0x1_0000 * (d[at + 2] as int) + 0x100_0000 * (d[at + 3] as int)
  }

  function Bytes16(w: u16): (d: seq<byte>)
    ensures |d| == 2 && Load16(d, 0) == w
  {
    [w % 0x100, w / 0x100]
  }

  function Bytes32(w: u32): (d: seq<byte>)
    ensures |d| == 4 && Load32(d, 0) == w
  {
    Nested(w);
    [w % 0x100, w / 0x100 % 0x100, w / 0x1_0000 % 0x100, w / 0x100_0000]
  }

  /** Little-endian: the first byte counts once, and each later one 256 times the one before. */
  lemma LittleEndian(a: byte, b: byte, c: byte)
    ensures Load16([a, 0], 0) == a && Load16([0, a], 0) == 0x100 * a
    ensures Load32([a, 0, 0, 0], 0) == a && Load32([0, a, b, c], 0) == 0x100 * Load32([a, b, c, 0], 0)
    ensures Load32([a, b, 0, 0], 0) == Load16([a, b], 0)
  {
  }

  /** A word read from anywhere is the word of its own four bytes. */
  lemma LoadSlice(d: seq<byte>, at: nat, v: seq<byte>)
    requires at + |v| <= |d| && d[at..at + |v|] == v
    ensures |v| == 2 ==> Load16(d, at) == Load16(v, 0)
    ensures |v| == 4 ==> Load32(d, at) == Load32(v, 0)
  {
    if |v| >= 2 { assert v[0] == d[at] && v[1] == d[at + 1]; }
    if |v| >= 4 { assert v[2] == d[at + 2] && v[3] == d[at + 3]; }
  }

  lemma SubSlice(d: seq<byte>, lo: nat, hi: nat, a: nat, b: nat)
    requires lo <= hi <= |d| && a <= b <= hi - lo
    ensures d[lo..hi][a..b] == d[lo + a..lo + b]
  {
    var l, r := d[lo..hi][a..b], d[lo + a..lo + b];
    forall k | 0 <= k < |l|
      ensures l[k] == r[k]
    {
      assert l[k] == d[lo..hi][a + k] == d[lo + (a + k)];
    }
  }

  lemma Nested(w: nat)
    ensures w / 0x1_0000 == w / 0x100 / 0x100 && w / 0x100_0000 == w / 0x1_0000 / 0x100
  {
  }

  /** The last digit to base 256, and the rest. */
  lemma Digit(a: byte, rest: nat)
    ensures (a + 0x100 * rest) % 0x100 == a && (a + 0x100 * rest) / 0x100 == rest
  {
  }

  /** Four bytes are the bytes of the word they spell. */
  lemma FourBytes(a: byte, b: byte, c: byte, d: byte)
    ensures Bytes32(Load32([a, b, c, d], 0)) == [a, b, c, d]
  {
    var two: nat := c + 0x100 * (d as int);
    var three: nat := b + 0x100 * two;
    Nested(a + 0x100 * three);
    Digit(a, three);
    Digit(b, two);
    Digit(c, d);
  }

  /** `d` with the bytes `v` written at `at`. */
  function Store(d: seq<byte>, at: nat, v: seq<byte>): (r: seq<byte>)
    requires at + |v| <= |d|
    ensures |r| == |d|
    ensures forall i | 0 <= i < |d| :: r[i] == if at <= i < at + |v| then v[i - at] else d[i]
  {
    d[..at] + v + d[at + |v|..]
  }

  function Zeros(n: nat): (r: seq<byte>)
    ensures |r| == n && forall i | 0 <= i < n :: r[i] == 0
  {
    seq(n, _ => 0)
  }

  /** Bitwise exclusive or. */
  function Xor(a: nat, b: nat): nat
    decreases a + b
  {
    if a == 0 && b == 0 then 0 else (if a % 2 != b % 2 then 1 else 0) + 2 * Xor(a / 2, b / 2)
  }

  lemma {:induction false} XorZero(a: nat)
    ensures Xor(a, 0) == a
  {
    if a != 0 { XorZero(a / 2); }
  }

  function Pow2(k: nat): (r: nat)
    ensures r > 0
  {
    if k == 0 then 1 else 2 * Pow2(k - 1)
  }

  // ---- bits of a number ----------------------------------------------------------------

  /** x & (1 << i). */
  predicate TestBit(x: nat, i: nat) {
    if i == 0 then x % 2 == 1 else TestBit(x / 2, i - 1)
  }

  /** x | (1 << i). */
  function SetBit(x: nat, i: nat): nat {
    if i == 0 then x / 2 * 2 + 1 else x % 2 + 2 * SetBit(x / 2, i - 1)
  }

  /** x & ~(1 << i). */
  function ClearBit(x: nat, i: nat): nat {
    if i == 0 then x / 2 * 2 else x % 2 + 2 * ClearBit(x / 2, i - 1)
  }

  /** Bit i of x is the last binary digit of x / 2^i. */
  lemma {:induction false} BitValue(x: nat, i: nat)
    ensures TestBit(x, i) <==> x / Pow2(i) % 2 == 1
  {
    if i > 0 {
      BitValue(x / 2, i - 1);
      Halved(x, Pow2(i - 1));
    }
  }

  lemma Halved(x: nat, n: nat)
    requires n > 0
    ensures x / (2 * n) == x / 2 / n
  {
    PartsJoin(x / 2, n);
    var q, r := x / 2 / n, x / 2 % n;
    assert x == Join(q, 2 * r + x % 2, 2 * n) by { assert 2 * (q * n) == q * (2 * n); }
    JoinParts(q, 2 * r + x % 2, 2 * n);
  }

  lemma {:induction false} SetBitTest(x: nat, i: nat, j: nat)
    ensures TestBit(SetBit(x, i), j) <==> i == j || TestBit(x, j)
  {
    if i > 0 && j > 0 { SetBitTest(x / 2, i - 1, j - 1); }
  }

  lemma {:induction false} XorTest(a: nat, b: nat, i: nat)
    ensures TestBit(Xor(a, b), i) <==> TestBit(a, i) != TestBit(b, i)
    decreases i
  {
    if a == 0 && b == 0 {
      NoBits(i);
    } else if i > 0 {
      XorTest(a / 2, b / 2, i - 1);
    }
  }

  lemma {:induction false} ClearBitTest(x: nat, i: nat, j: nat)
    ensures TestBit(ClearBit(x, i), j) <==> i != j && TestBit(x, j)
  {
    if i > 0 && j > 0 { ClearBitTest(x / 2, i - 1, j - 1); }
  }

  lemma {:induction false} BitBound(x: nat, i: nat, n: nat)
    requires x < Pow2(n) && i < n
    ensures SetBit(x, i) < Pow2(n) && ClearBit(x, i) < Pow2(n)
  {
    assert Pow2(n) == 2 * Pow2(n - 1) && x / 2 < Pow2(n - 1);
    if i > 0 { BitBound(x / 2, i - 1, n - 1); }
  }

  lemma {:induction false} NoBits(i: nat)
    ensures !TestBit(0, i)
  {
    if i > 0 { NoBits(i - 1); }
  }

  lemma {:induction false} ClearSet(x: nat, i: nat)
    requires !TestBit(x, i)
    ensures ClearBit(SetBit(x, i), i) == x
  {
    if i > 0 { ClearSet(x / 2, i - 1); }
  }

  /** A number of n bits that is all ones has every bit set. */
  lemma {:induction false} OnesTest(x: nat, n: nat, j: nat)
    requires x == Pow2(n) - 1 && j < n
    ensures TestBit(x, j)
  {
    assert x / 2 == Pow2(n - 1) - 1 && x % 2 == 1;
    if j > 0 { OnesTest(x / 2, n - 1, j - 1); }
  }

  // ---- clipping a transfer ---------------------------------------------------------------------

  /** How many bytes a read at `offset` sets out to return; the kernel's bound check is done in 32 bits. */
  function ReadCount(fileSize: nat, offset: nat, size: nat): nat {
    if offset >= fileSize then 0
    else if (offset + size) % U32 > fileSize then (fileSize - offset) % U32
    else size
  }

  /** The count is clipped at the end of the file except when offset + size overflows 32 bits inside the file. */
  lemma ReadCountExact(fileSize: nat, offset: nat, size: nat)
    requires offset < U32 && size < U32 && offset < fileSize
    ensures ReadCount(fileSize, offset, size) == (if size < fileSize - offset then size else fileSize - offset)
            <==> offset + size < U32 || offset + size <= fileSize
  {
    if offset + size >= U32 {
      assert (offset + size) % U32 == offset + size - U32;
    }
  }

  /** In a file of 100 bytes, a read at 50 whose end wraps to 40 sets out to return nearly 2^32 bytes, not 50. */
  lemma ReadCountExample()
    ensures ReadCount(100, 50, U32 - 10) == U32 - 10 > 100 - 50
  {
    assert (50 + (U32 - 10)) % U32 == 40;
  }
}
