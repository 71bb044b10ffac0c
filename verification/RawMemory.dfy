/** Byte-addressed memory and the little-endian integers of packed structures. */
module RawMemory {
  import opened Common

  /** All of memory. Addresses are natural numbers; `EventLog.AddressesFit`
      shows when they are 64-bit pointers. */
  type Memory = nat -> byte

  /** The `n` bytes at address `a`. */
  function BytesAt(m: Memory, a: nat, n: nat): (b: seq<byte>)
    ensures |b| == n
    decreases n
  {
    if n == 0 then [] else [m(a)] + BytesAt(m, a + 1, n - 1)
  }

  /** The number a byte string denotes, least significant byte first. */
  function LittleEndian(b: seq<byte>): nat {
    if b == [] then 0 else b[0] + 0x100 * LittleEndian(b[1..])
  }

  lemma LittleEndianBounds(b: seq<byte>)
    requires |b| == 2 || |b| == 4
    ensures |b| == 2 ==> LittleEndian(b) < 0x1_0000
    ensures |b| == 4 ==> LittleEndian(b) < 0x1_0000_0000
  {
    var c := if |b| == 4 then b[2..] else b;
    assert LittleEndian(c[1..]) == c[1] by {
      assert c[1..][1..] == [];
    }
    if |b| == 4 {
      assert b[1..][1..] == c;
    }
  }

  /** Little-endian reads. */
  function U16(m: Memory, a: nat): u16 {
    LittleEndianBounds(BytesAt(m, a, 2));
    LittleEndian(BytesAt(m, a, 2))
  }

  function U32(m: Memory, a: nat): u32 {
    LittleEndianBounds(BytesAt(m, a, 4));
    LittleEndian(BytesAt(m, a, 4))
  }

  lemma ReadsBytes(m: Memory, a: nat)
    ensures U16(m, a) == m(a) + 0x100 * m(a + 1)
    ensures U32(m, a) == m(a) + 0x100 * m(a + 1) + 0x1_0000 * m(a + 2) + 0x100_0000 * m(a + 3)
  {
    hide LittleEndian;
    LittleEndianOfFour(m(a), m(a + 1), m(a + 2), m(a + 3));
    assert BytesAt(m, a, 2) == [m(a), m(a + 1)];
    BytesAtIndex(m, a, 4, 0);
    BytesAtIndex(m, a, 4, 1);
    BytesAtIndex(m, a, 4, 2);
    BytesAtIndex(m, a, 4, 3);
    assert BytesAt(m, a, 4) == [m(a), m(a + 1), m(a + 2), m(a + 3)];
  }

  lemma LittleEndianOfFour(x: byte, y: byte, z: byte, w: byte)
    ensures LittleEndian([x, y]) == x + 0x100 * y
    ensures LittleEndian([x, y, z, w]) == x + 0x100 * y + 0x1_0000 * z + 0x100_0000 * w
  {
    assert [x, y][1..] == [y] && [y][1..] == [];
    assert [x, y, z, w][1..] == [y, z, w] && [y, z, w][1..] == [z, w] && [z, w][1..] == [w] && [w][1..] == [];
    assert LittleEndian([w]) == w;
    assert LittleEndian([z, w]) == z + 0x100 * w;
    assert LittleEndian([y]) == y;
  }

  // ---- Writing ----

  function Le16(v: u16): (b: seq<byte>)
    ensures |b| == 2
  {
    [v % 0x100, v / 0x100]
  }

  function Le32(v: u32): (b: seq<byte>)
    ensures |b| == 4
  {
    [v % 0x100, v / 0x100 % 0x100, v / 0x1_0000 % 0x100, v / 0x100_0000]
  }

  // ---- Memory holding bytes ----

  /** Memory holds the bytes `b` at address `a`. */
  predicate Holds(m: Memory, a: nat, b: seq<byte>) {
    BytesAt(m, a, |b|) == b
  }

  function MemoryOf(b: seq<byte>, base: nat): Memory {
    (x: nat) => if base <= x < base + |b| then b[x - base] else 0
  }

  lemma {:induction false} BytesAtIndex(m: Memory, a: nat, n: nat, i: nat)
    requires i < n
    ensures BytesAt(m, a, n)[i] == m(a + i)
    decreases n
  {
    if i > 0 {
      BytesAtIndex(m, a + 1, n - 1, i - 1);
    }
  }

  lemma MemoryOfHolds(b: seq<byte>, base: nat)
    ensures Holds(MemoryOf(b, base), base, b)
  {
    var m := MemoryOf(b, base);
    forall i: nat | i < |b| ensures BytesAt(m, base, |b|)[i] == b[i] {
      BytesAtIndex(m, base, |b|, i);
    }
  }

  lemma {:induction false} BytesAtConcat(m: Memory, a: nat, n: nat, k: nat)
    ensures BytesAt(m, a, n + k) == BytesAt(m, a, n) + BytesAt(m, a + n, k)
    decreases n
  {
    if n > 0 {
      BytesAtConcat(m, a + 1, n - 1, k);
    }
  }

  lemma HoldsConcat(m: Memory, a: nat, x: seq<byte>, y: seq<byte>)
    ensures Holds(m, a, x + y) <==> Holds(m, a, x) && Holds(m, a + |x|, y)
  {
    BytesAtConcat(m, a, |x|, |y|);
    ConcatCancels(BytesAt(m, a, |x|), BytesAt(m, a + |x|, |y|), x, y);
  }

  lemma ConcatCancels<T>(x: seq<T>, y: seq<T>, x': seq<T>, y': seq<T>)
    requires |x| == |x'|
    ensures x + y == x' + y' <==> x == x' && y == y'
  {
    assert (x + y)[..|x|] == x && (x + y)[|x|..] == y;
    assert (x' + y')[..|x'|] == x' && (x' + y')[|x'|..] == y';
  }

  lemma HoldsLe16(m: Memory, a: nat, v: u16)
    ensures Holds(m, a, Le16(v)) <==> U16(m, a) == v
  {
    Le16Denotes(v);
    if U16(m, a) == v {
      LittleEndianInjective(BytesAt(m, a, 2), Le16(v));
    }
  }

  lemma HoldsLe32(m: Memory, a: nat, v: u32)
    ensures Holds(m, a, Le32(v)) <==> U32(m, a) == v
  {
    Le32Denotes(v);
    if U32(m, a) == v {
      LittleEndianInjective(BytesAt(m, a, 4), Le32(v));
    }
  }

  lemma Le16Denotes(v: u16)
    ensures LittleEndian(Le16(v)) == v
  {
    hide LittleEndian;
    LittleEndianOfFour(Le16(v)[0], Le16(v)[1], 0, 0);
  }

  lemma Le32Denotes(v: u32)
    ensures LittleEndian(Le32(v)) == v
  {
    hide LittleEndian;
    FourBytes(v, v / 0x1_0000);
    LittleEndianOfFour(Le32(v)[0], Le32(v)[1], Le32(v)[2], Le32(v)[3]);
  }

  lemma FourBytes(v: u32, high: nat)
    requires high == v / 0x1_0000
    ensures v / 0x100_0000 == high / 0x100
    ensures v == v % 0x100 + 0x100 * (v / 0x100 % 0x100) + 0x1_0000 * (high % 0x100) + 0x100_0000 * (high / 0x100)
  {
    TwoBytes(v);
    TwoBytes(v / 0x100);
    assert v / 0x100 / 0x100 == high;
  }

  lemma TwoBytes(v: nat)
    ensures v == v % 0x100 + 0x100 * (v / 0x100)
  {
  }

  lemma {:induction false} LittleEndianInjective(b: seq<byte>, c: seq<byte>)
    requires |b| == |c| && LittleEndian(b) == LittleEndian(c)
    ensures b == c
  {
    if b != [] {
      LittleEndianInjective(b[1..], c[1..]);
      assert b == [b[0]] + b[1..] && c == [c[0]] + c[1..];
    }
  }
}
