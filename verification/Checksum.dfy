/**
 The CRC-32 that guards every log frame (section 8 of RFC 1952).

 Registers are 32-bit unsigned integers written as naturals; `Xor` is bitwise exclusive or.
 The source keeps a 256-entry table and consumes a byte at a time.  The reference here
 feeds the message into the shift register one bit at a time.
 */
module Checksum {
  import opened Bytes

  type u32 = x: int | 0 <= x < 0x1_0000_0000

  const POLY: u32 := 0xEDB8_8320
  const INIT: u32 := 0xFFFF_FFFF

  function Xor(a: nat, b: nat): nat
    decreases a + b
  {
    if a == 0 && b == 0 then 0 else (a % 2 + b % 2) % 2 + 2 * Xor(a / 2, b / 2)
  }

  /** One shift of the reflected register. */
  function Step(c: nat): nat {
    if c % 2 == 1 then Xor(POLY, c / 2) else c / 2
  }

  function Steps(c: nat, k: nat): nat
    decreases k, c
  {
    if k == 0 then c else Steps(Step(c), k - 1)
  }

  /** Reference: one message bit enters the register. */
  function FeedBit(c: nat, bit: nat): nat {
    if (c % 2 + bit) % 2 == 1 then Xor(POLY, c / 2) else c / 2
  }

  /** The low `k` bits of a byte, least significant first. */
  function FeedBits(c: nat, b: nat, k: nat): nat
    decreases k, c
  {
    if k == 0 then c else FeedBits(FeedBit(c, b % 2), b / 2, k - 1)
  }

  function Register(c: nat, bytes: seq<byte>): nat {
    if bytes == [] then c
    else FeedBits(Register(c, bytes[..|bytes| - 1]), bytes[|bytes| - 1], 8)
  }

  function Crc(bytes: seq<byte>): int {
    0xFFFF_FFFF - Register(INIT, bytes)
  }

  // ---- Exclusive or.

  lemma {:induction false} XorZero(a: nat)
    ensures Xor(a, 0) == a == Xor(0, a)
  {
    if a > 0 {
      XorZero(a / 2);
    }
  }

  lemma XorBits(a: nat, b: nat)
    ensures Xor(a, b) % 2 == (a % 2 + b % 2) % 2
    ensures Xor(a, b) / 2 == Xor(a / 2, b / 2)
  {
  }

  lemma {:induction false} XorAssociative(a: nat, b: nat, c: nat)
    ensures Xor(a, Xor(b, c)) == Xor(Xor(a, b), c)
    decreases a + b + c
  {
    hide Xor;
    if a + b + c == 0 {
      XorZero(0);
    } else {
      XorAssociative(a / 2, b / 2, c / 2);
      XorLeft(a, b, c);
      XorRight(a, b, c);
      BitsAssociative(a % 2, b % 2, c % 2);
      Halves(Xor(a, Xor(b, c)), Xor(Xor(a, b), c));
    }
  }

  lemma XorLeft(a: nat, b: nat, c: nat)
    ensures Xor(a, Xor(b, c)) % 2 == (a % 2 + (b % 2 + c % 2) % 2) % 2
    ensures Xor(a, Xor(b, c)) / 2 == Xor(a / 2, Xor(b / 2, c / 2))
  {
    hide Xor;
    XorBits(b, c);
    XorBits(a, Xor(b, c));
  }

  lemma XorRight(a: nat, b: nat, c: nat)
    ensures Xor(Xor(a, b), c) % 2 == ((a % 2 + b % 2) % 2 + c % 2) % 2
    ensures Xor(Xor(a, b), c) / 2 == Xor(Xor(a / 2, b / 2), c / 2)
  {
    hide Xor;
    XorBits(a, b);
    XorBits(Xor(a, b), c);
  }

  lemma BitsAssociative(x: nat, y: nat, z: nat)
    requires x < 2 && y < 2 && z < 2
    ensures (x + (y + z) % 2) % 2 == ((x + y) % 2 + z) % 2
  {
  }

  lemma Halves(x: nat, y: nat)
    requires x % 2 == y % 2 && x / 2 == y / 2
    ensures x == y
  {
  }

  lemma {:induction false} XorCancel(p: nat, a: nat, b: nat)
    requires Xor(p, a) == Xor(p, b)
    ensures a == b
    decreases p + a + b
  {
    hide Xor;
    if p + a + b > 0 {
      XorBits(p, a);
      XorBits(p, b);
      XorCancel(p / 2, a / 2, b / 2);
    }
  }

  lemma {:induction false} XorBound(a: nat, b: nat, k: nat)
    requires a < Pow2(k) && b < Pow2(k)
    ensures Xor(a, b) < Pow2(k)
    decreases k
  {
    if k > 0 && a + b > 0 {
      XorBound(a / 2, b / 2, k - 1);
    }
  }

  // A top bit present in one operand only survives.
  lemma {:induction false} XorTopBit(a: nat, b: nat, k: nat)
    requires b < Pow2(k) <= a < Pow2(k + 1)
    ensures Pow2(k) <= Xor(a, b)
    decreases k
  {
    if k > 0 {
      XorTopBit(a / 2, b / 2, k - 1);
    }
  }

  // Operands without a common bit position add up.
  lemma {:induction false} XorDisjoint(a: nat, w: nat, k: nat)
    requires a < Pow2(k)
    ensures Xor(a, Pow2(k) * w) == a + Pow2(k) * w
    decreases k
  {
    if k == 0 {
      XorZero(w);
    } else {
      var h := Pow2(k - 1) * w;
      assert Pow2(k) * w == 2 * h;
      XorDisjoint(a / 2, w, k - 1);
      if a + h > 0 {
        assert Xor(a, 2 * h) == (a % 2 + (2 * h) % 2) % 2 + 2 * Xor(a / 2, (2 * h) / 2);
      }
    }
  }

  lemma Pow2Byte()
    ensures Pow2(8) == 256
  {
    assert Pow2(8) == 16 * Pow2(4) == 256;
  }

  lemma Pow2Values()
    ensures Pow2(31) == 0x8000_0000 && Pow2(32) == 0x1_0000_0000
  {
    Pow2Byte();
    assert Pow2(16) == 256 * Pow2(8);
    assert Pow2(24) == 256 * Pow2(16);
    assert Pow2(31) == 128 * Pow2(24);
  }

  // ---- The shift register is linear and, on 32 bits, injective.

  lemma StepLinear(x: nat, y: nat)
    requires y % 2 == 0
    ensures Step(Xor(x, y)) == Xor(Step(x), y / 2)
  {
    hide Xor;
    XorBits(x, y);
    XorAssociative(POLY, x / 2, y / 2);
  }

  lemma {:induction false} StepsLinear(x: nat, y: nat, k: nat)
    ensures Steps(Xor(x, Pow2(k) * y), k) == Xor(Steps(x, k), y)
    decreases k
  {
    if k > 0 {
      var h := Pow2(k - 1) * y;
      assert Pow2(k) * y == 2 * h;
      StepLinear(x, 2 * h);
      StepsLinear(Step(x), y, k - 1);
    }
  }

  lemma StepsZero(c: nat)
    ensures Steps(c, 0) == c
  {
  }

  lemma {:induction false} StepsAdd(c: nat, j: nat, k: nat)
    ensures Steps(c, j + k) == Steps(Steps(c, j), k)
    decreases j
  {
    if j > 0 {
      StepsAdd(Step(c), j - 1, k);
    }
  }

  lemma StepBound(c: u32)
    ensures Step(c) < 0x1_0000_0000
    ensures c % 2 == 1 <==> Step(c) >= 0x8000_0000
  {
    Pow2Values();
    if c % 2 == 1 {
      XorBound(POLY, c / 2, 32);
      XorTopBit(POLY, c / 2, 31);
    }
  }

  lemma {:induction false} StepsInjective(a: u32, b: u32, k: nat)
    requires Steps(a, k) == Steps(b, k)
    ensures a == b
    decreases k
  {
    if k > 0 {
      StepBound(a);
      StepBound(b);
      StepsInjective(Step(a), Step(b), k - 1);
      if a % 2 == 1 {
        XorCancel(POLY, a / 2, b / 2);
      }
    }
  }

  lemma {:induction false} StepsBound(c: u32, k: nat)
    ensures Steps(c, k) < 0x1_0000_0000
    decreases k
  {
    if k > 0 {
      StepBound(c);
      StepsBound(Step(c), k - 1);
    }
  }

  // ---- The table-driven loop against the reference.

  // XOR-ing the remaining bits in first only moves them along the register.
  lemma {:induction false} FeedBitsIsSteps(c: nat, b: nat, k: nat)
    requires b < Pow2(k)
    ensures FeedBits(c, b, k) == Steps(Xor(c, b), k)
    decreases k
  {
    hide Xor;
    if k == 0 {
      XorZero(c);
    } else {
      XorBits(c, b);
      XorAssociative(POLY, c / 2, b / 2);
      assert Step(Xor(c, b)) == Xor(FeedBit(c, b % 2), b / 2);
      FeedBitsIsSteps(FeedBit(c, b % 2), b / 2, k - 1);
    }
  }

  lemma FeedByteIsSteps(c: nat, b: byte)
    ensures FeedBits(c, b, 8) == Steps(Xor(c, b), 8)
  {
    Pow2Byte();
    FeedBitsIsSteps(c, b, 8);
  }

  // The low byte selects a table entry; the other three move down by one byte.
  lemma SplitLowByte(x: nat)
    ensures Steps(x, 8) == Xor(Steps(x % 256, 8), x / 256)
  {
    Pow2Byte();
    XorDisjoint(x % 256, x / 256, 8);
    StepsLinear(x % 256, x / 256, 8);
  }

  lemma TopBytesKept(c: nat, b: byte)
    ensures Xor(c, b) / 256 == c / 256
  {
    var low, high := c % 256, c / 256;
    Pow2Byte();
    XorDisjoint(low, high, 8);
    XorCommutative(c, b);
    XorAssociative(b, low, 256 * high);
    XorBound(b, low, 8);
    XorDisjoint(Xor(b, low), high, 8);
  }

  lemma {:induction false} RegisterBound(c: u32, bytes: seq<byte>)
    ensures Register(c, bytes) < 0x1_0000_0000
  {
    if bytes != [] {
      var n := |bytes| - 1;
      RegisterBound(c, bytes[..n]);
      FeedByteIsSteps(Register(c, bytes[..n]), bytes[n]);
      Pow2Values();
      XorBound(Register(c, bytes[..n]), bytes[n], 32);
      StepsBound(Xor(Register(c, bytes[..n]), bytes[n]), 8);
    }
  }

  method TableEntry(i: byte) returns (c: u32)
    ensures c == Steps(i, 8)
  {
    c := i;
    var k := 0;
    while k < 8
      invariant 0 <= k <= 8
      invariant Steps(c, 8 - k) == Steps(i, 8)
    {
      StepBound(c);
      if c % 2 != 0 {
        c := Xor(POLY, c / 2);
      } else {
        c := c / 2;
      }
      k := k + 1;
    }
  }

  method BuildTable() returns (table: array<u32>)
    ensures fresh(table) && table.Length == 256
    ensures forall j :: 0 <= j < 256 ==> table[j] == Steps(j, 8)
  {
    table := new u32[256];
    var i := 0;
    while i < 256
      invariant 0 <= i <= 256
      invariant forall j :: 0 <= j < i ==> table[j] == Steps(j, 8)
    {
      table[i] := TableEntry(i);
      i := i + 1;
    }
  }

  lemma TableStep(c: u32, b: byte)
    ensures FeedBits(c, b, 8) == Xor(Steps(Xor(c, b) % 256, 8), c / 256)
  {
    FeedByteIsSteps(c, b);
    SplitLowByte(Xor(c, b));
    TopBytesKept(c, b);
  }

  lemma RegisterNext(bytes: seq<byte>, i: nat)
    requires i < |bytes|
    ensures Register(INIT, bytes[..i]) < 0x1_0000_0000
    ensures Register(INIT, bytes[..i + 1]) < 0x1_0000_0000
    ensures Register(INIT, bytes[..i + 1])
         == Xor(Steps(Xor(Register(INIT, bytes[..i]), bytes[i]) % 256, 8), Register(INIT, bytes[..i]) / 256)
  {
    assert bytes[..i + 1][..i] == bytes[..i];
    RegisterBound(INIT, bytes[..i]);
    TableStep(Register(INIT, bytes[..i]), bytes[i]);
    RegisterBound(INIT, bytes[..i + 1]);
  }

  method Crc32(bytes: seq<byte>) returns (crc: u32)
    ensures crc == Crc(bytes)
  {
    hide Xor, Steps, FeedBits;
    var table := BuildTable();
    crc := INIT;
    for i := 0 to |bytes|
      modifies {}
      invariant crc == Register(INIT, bytes[..i])
    {
      RegisterNext(bytes, i);
      var idx := Xor(crc, bytes[i]) % 256;
      crc := Xor(table[idx], crc / 256);
    }
    assert bytes[..|bytes|] == bytes;
    crc := 0xFFFF_FFFF - crc;
  }

  // ---- Burst detection.

  /** The message as one binary number, first byte lowest. */
  function Word(bytes: seq<byte>): nat {
    FromLittleEndian(bytes)
  }

  // The register after any message is the XOR of start and message, shifted through.
  lemma {:induction false} RegisterIsSteps(c: nat, bytes: seq<byte>)
    ensures Register(c, bytes) == Steps(Xor(c, Word(bytes)), 8 * |bytes|)
  {
    hide Xor, Steps, FeedBits;
    if bytes == [] {
      XorZero(c);
      StepsZero(c);
    } else {
      var n := |bytes| - 1;
      var init, b := bytes[..n], bytes[n];
      var x, y := Xor(c, Word(init)), Pow2(8 * n) * b;
      assert bytes == init + [b];
      calc {
        Register(c, bytes);
        { RegisterIsSteps(c, init); }
        FeedBits(Steps(x, 8 * n), b, 8);
        { FeedByteIsSteps(Steps(x, 8 * n), b); }
        Steps(Xor(Steps(x, 8 * n), b), 8);
        { StepsLinear(x, b, 8 * n); }
        Steps(Steps(Xor(x, y), 8 * n), 8);
        { StepsAdd(Xor(x, y), 8 * n, 8); }
        Steps(Xor(x, y), 8 * n + 8);
        { XorAssociative(c, Word(init), y); WordSnoc(init, b); }
        Steps(Xor(c, Word(bytes)), 8 * |bytes|);
      }
    }
  }

  lemma {:induction false} WordBound(bytes: seq<byte>)
    ensures Word(bytes) < Pow2(8 * |bytes|)
  {
    if bytes != [] {
      WordBound(bytes[1..]);
      Pow2Add(8, 8 * |bytes[1..]|);
      Pow2Byte();
    }
  }

  lemma {:induction false} WordAppend(bytes: seq<byte>, b: byte)
    ensures Word(bytes + [b]) == Word(bytes) + Pow2(8 * |bytes|) * b
  {
    if bytes == [] {
    } else {
      WordAppend(bytes[1..], b);
      assert (bytes + [b])[1..] == bytes[1..] + [b];
      Pow2Add(8, 8 * |bytes[1..]|);
      Pow2Byte();
    }
  }

  lemma WordSnoc(bytes: seq<byte>, b: byte)
    ensures Word(bytes + [b]) == Xor(Word(bytes), Pow2(8 * |bytes|) * b)
  {
    WordAppend(bytes, b);
    WordBound(bytes);
    XorDisjoint(Word(bytes), b, 8 * |bytes|);
  }

  lemma {:induction false} WordInjective(a: seq<byte>, b: seq<byte>)
    requires |a| == |b| && Word(a) == Word(b)
    ensures a == b
  {
    if a != [] {
      WordInjective(a[1..], b[1..]);
      assert a == [a[0]] + a[1..] && b == [b[0]] + b[1..];
    }
  }

  lemma {:induction false} RegisterConcat(c: nat, a: seq<byte>, b: seq<byte>)
    ensures Register(c, a + b) == Register(Register(c, a), b)
    decreases |b|
  {
    if b == [] {
      assert a + b == a;
    } else {
      var n := |b| - 1;
      RegisterConcat(c, a, b[..n]);
      assert (a + b)[..|a + b| - 1] == a + b[..n];
      assert (a + b)[|a + b| - 1] == b[n];
    }
  }

  // Up to four bytes: different words leave different registers.
  lemma ShortWordDetected(c: u32, a: seq<byte>, b: seq<byte>)
    requires |a| == |b| <= 4 && a != b
    ensures Register(c, a) != Register(c, b)
  {
    if Register(c, a) == Register(c, b) {
      RegisterIsSteps(c, a);
      RegisterIsSteps(c, b);
      WordIsU32(a);
      WordIsU32(b);
      Pow2Values();
      XorBound(c, Word(a), 32);
      XorBound(c, Word(b), 32);
      StepsInjective(Xor(c, Word(a)), Xor(c, Word(b)), 8 * |a|);
      XorCancel(c, Word(a), Word(b));
      WordInjective(a, b);
    }
  }

  lemma WordIsU32(a: seq<byte>)
    requires |a| <= 4
    ensures Word(a) < 0x1_0000_0000
  {
    hide Pow2, Word;
    WordBound(a);
    Pow2Values();
    Pow2Add(8 * |a|, 32 - 8 * |a|);
    assert Pow2(32) >= Pow2(8 * |a|);
  }

  // Once two registers differ, equal bytes keep them different.
  lemma DifferenceKept(c: u32, d: u32, tail: seq<byte>)
    requires c != d
    ensures Register(c, tail) != Register(d, tail)
    decreases |tail|
  {
    if tail != [] {
      var n := |tail| - 1;
      DifferenceKept(c, d, tail[..n]);
      var x, y := Register(c, tail[..n]), Register(d, tail[..n]);
      RegisterBound(c, tail[..n]);
      RegisterBound(d, tail[..n]);
      FeedByteIsSteps(x, tail[n]);
      FeedByteIsSteps(y, tail[n]);
      Pow2Values();
      XorBound(x, tail[n], 32);
      XorBound(y, tail[n], 32);
      if Steps(Xor(x, tail[n]), 8) == Steps(Xor(y, tail[n]), 8) {
        StepsInjective(Xor(x, tail[n]), Xor(y, tail[n]), 8);
        XorCommutative(x, tail[n]);
        XorCommutative(y, tail[n]);
        XorCancel(tail[n], x, y);
      }
    }
  }

  lemma {:induction false} XorCommutative(a: nat, b: nat)
    ensures Xor(a, b) == Xor(b, a)
    decreases a + b
  {
    if a + b > 0 {
      XorCommutative(a / 2, b / 2);
    }
  }

  /** Any change confined to four consecutive bytes changes the checksum. */
  lemma BurstDetected(p: seq<byte>, q: seq<byte>, i: nat)
    requires |p| == |q| && p != q
    requires forall j :: 0 <= j < |p| && (j < i || i + 4 <= j) ==> p[j] == q[j]
    ensures Crc(p) != Crc(q)
  {
    hide Register;
    assert p != q ==> i < |p|;
    var e := if i + 4 <= |p| then i + 4 else |p|;
    var head, tail := p[..i], p[e..];
    assert p == head + (p[i..e] + tail);
    assert q == head + (q[i..e] + tail);
    RegisterBound(INIT, head);
    var c := Register(INIT, head);
    RegisterConcat(INIT, head, p[i..e] + tail);
    RegisterConcat(INIT, head, q[i..e] + tail);
    RegisterConcat(c, p[i..e], tail);
    RegisterConcat(c, q[i..e], tail);
    ShortWordDetected(c, p[i..e], q[i..e]);
    RegisterBound(c, p[i..e]);
    RegisterBound(c, q[i..e]);
    DifferenceKept(Register(c, p[i..e]), Register(c, q[i..e]), tail);
  }
}
