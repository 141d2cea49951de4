/** zlib.crc32: the reflected polynomial 0xEDB88320 folded over the bytes (RFC 1952, section 8). */
module Crc32 {
  import opened Bits

  const MASK: nat := 0xFFFF_FFFF
  const POLY: nat := 0xEDB8_8320

  function Rounds(reg: nat, n: nat): nat
    decreases n
  {
    if n == 0 then reg
    else Rounds(if reg % 2 == 1 then Xor(reg / 2, POLY) else reg / 2, n - 1)
  }

  function Fold(reg: nat, data: seq<byte>): nat
    decreases |data|
  {
    if data == [] then reg else Fold(Rounds(Xor(reg, data[0]), 8), data[1..])
  }

  /** zlib.crc32(data, value) */
  function Update(data: seq<byte>, value: nat): nat {
    Xor(Fold(Xor(value, MASK), data), MASK)
  }

  function Crc(data: seq<byte>): nat {
    Update(data, 0)
  }

  lemma {:induction false} FoldAppend(reg: nat, a: seq<byte>, b: seq<byte>)
    ensures Fold(reg, a + b) == Fold(Fold(reg, a), b)
    decreases |a|
  {
    if a == [] {
      assert a + b == b;
    } else {
      assert (a + b)[1..] == a[1..] + b;
      FoldAppend(Rounds(Xor(reg, a[0]), 8), a[1..], b);
    }
  }

  /** Feeding a file piece by piece gives the CRC of the whole file. */
  lemma UpdateAppend(a: seq<byte>, b: seq<byte>, value: nat)
    ensures Update(a + b, value) == Update(b, Update(a, value))
  {
    FoldAppend(Xor(value, MASK), a, b);
    XorInvolutive(Fold(Xor(value, MASK), a), MASK);
  }

  lemma UpdateEmpty(value: nat)
    ensures Update([], value) == value
  {
    XorInvolutive(value, MASK);
  }

  lemma {:induction false} RoundsBound(reg: nat, n: nat)
    requires reg < Pow2(32)
    ensures Rounds(reg, n) < Pow2(32)
    decreases n
  {
    hide Xor, Pow2;
    if n > 0 {
      Powers();
      XorBound(reg / 2, POLY, 32);
      RoundsBound(if reg % 2 == 1 then Xor(reg / 2, POLY) else reg / 2, n - 1);
    }
  }

  lemma Powers()
    ensures Pow2(8) == 0x100 && Pow2(31) == 0x8000_0000 && Pow2(32) == 0x1_0000_0000
  {
    assert Pow2(8) == 0x100;
    Pow2Add(8, 8);
    Pow2Add(16, 16);
  }

  lemma {:induction false} FoldBound(reg: nat, data: seq<byte>)
    requires reg < Pow2(32)
    ensures Fold(reg, data) < Pow2(32)
    decreases |data|
  {
    hide Xor, Pow2, Rounds;
    if data != [] {
      Powers();
      XorBound(reg, data[0], 32);
      RoundsBound(Xor(reg, data[0]), 8);
      FoldBound(Rounds(Xor(reg, data[0]), 8), data[1..]);
    }
  }

  lemma CrcBound(data: seq<byte>)
    ensures Crc(data) < Pow2(32)
  {
    hide Xor, Pow2, Fold;
    Powers();
    XorBound(0, MASK, 32);
    FoldBound(Xor(0, MASK), data);
    XorBound(Fold(Xor(0, MASK), data), MASK, 32);
  }

  // ----- what a CRC notices

  /** One bit shifted out: no two registers become the same. */
  lemma RoundInjective(a: nat, b: nat)
    requires a < Pow2(32) && b < Pow2(32) && Rounds(a, 1) == Rounds(b, 1)
    ensures a == b
  {
    hide Xor, Pow2;
    Powers();
    assert Rounds(a, 1) == Rounds(if a % 2 == 1 then Xor(a / 2, POLY) else a / 2, 0);
    assert Rounds(b, 1) == Rounds(if b % 2 == 1 then Xor(b / 2, POLY) else b / 2, 0);
    TopSet(a / 2);
    TopSet(b / 2);
    XorInvolutive(a / 2, POLY);
    XorInvolutive(b / 2, POLY);
  }

  /** The highest bit of the polynomial is set. */
  lemma TopSet(h: nat)
    requires h < 0x8000_0000
    ensures Xor(h, POLY) >= 0x8000_0000
  {
    hide Xor, Pow2;
    XorBits(h, POLY, 31);
    Powers();
    assert POLY / 0x8000_0000 == 1;
  }

  lemma {:induction false} RoundsInjective(a: nat, b: nat, n: nat)
    requires a < Pow2(32) && b < Pow2(32) && Rounds(a, n) == Rounds(b, n)
    ensures a == b
    decreases n
  {
    hide Xor, Pow2;
    if n > 0 {
      var a', b' := Rounds(a, 1), Rounds(b, 1);
      RoundsFirst(a, n);
      RoundsFirst(b, n);
      RoundsBound(a, 1);
      RoundsBound(b, 1);
      RoundsInjective(a', b', n - 1);
      RoundInjective(a, b);
    }
  }

  lemma RoundsFirst(reg: nat, n: nat)
    requires n > 0
    ensures Rounds(reg, n) == Rounds(Rounds(reg, 1), n - 1)
  {
    hide Xor;
    assert Rounds(reg, 1) == Rounds(if reg % 2 == 1 then Xor(reg / 2, POLY) else reg / 2, 0);
  }

  lemma {:induction false} FoldInjective(a: nat, b: nat, data: seq<byte>)
    requires a < Pow2(32) && b < Pow2(32) && Fold(a, data) == Fold(b, data)
    ensures a == b
    decreases |data|
  {
    hide Xor, Pow2, Rounds;
    if data != [] {
      Powers();
      XorBound(a, data[0], 32);
      XorBound(b, data[0], 32);
      RoundsBound(Xor(a, data[0]), 8);
      RoundsBound(Xor(b, data[0]), 8);
      FoldInjective(Rounds(Xor(a, data[0]), 8), Rounds(Xor(b, data[0]), 8), data[1..]);
      RoundsInjective(Xor(a, data[0]), Xor(b, data[0]), 8);
      XorInvolutive(a, data[0]);
      XorInvolutive(b, data[0]);
    }
  }

  /** A CRC notices every change of a single byte, wherever it is. */
  lemma OneByteNoticed(before: seq<byte>, x: byte, y: byte, after: seq<byte>)
    requires Crc(before + [x] + after) == Crc(before + [y] + after)
    ensures x == y
  {
    hide Xor, Pow2, Rounds;
    Powers();
    XorBound(0, MASK, 32);
    var start := Xor(0, MASK);
    var reg := Fold(start, before);
    FoldBound(start, before);
    XorInvolutive(Fold(start, before + [x] + after), MASK);
    XorInvolutive(Fold(start, before + [y] + after), MASK);
    FoldThree(start, before, x, after);
    FoldThree(start, before, y, after);
    XorBound(reg, x, 32);
    XorBound(reg, y, 32);
    RoundsBound(Xor(reg, x), 8);
    RoundsBound(Xor(reg, y), 8);
    FoldInjective(Rounds(Xor(reg, x), 8), Rounds(Xor(reg, y), 8), after);
    RoundsInjective(Xor(reg, x), Xor(reg, y), 8);
    XorCommutes(reg, x);
    XorCommutes(reg, y);
    XorInvolutive(x, reg);
    XorInvolutive(y, reg);
  }

  lemma FoldThree(start: nat, before: seq<byte>, x: byte, after: seq<byte>)
    ensures Fold(start, before + [x] + after) == Fold(Rounds(Xor(Fold(start, before), x), 8), after)
  {
    hide Xor, Rounds;
    FoldAppend(start, before + [x], after);
    FoldAppend(start, before, [x]);
    assert [x][1..] == [];
    assert Fold(Rounds(Xor(Fold(start, before), x), 8), []) == Rounds(Xor(Fold(start, before), x), 8);
  }
}
