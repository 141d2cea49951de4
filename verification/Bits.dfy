/** Bytes, and Python's bitwise operators on non-negative integers, defined bit by bit. */
module Bits {
  type byte = x: int | 0 <= x < 256

  function Pow2(n: nat): (r: nat)
    ensures r >= 1
  {
    if n == 0 then 1 else 2 * Pow2(n - 1)
  }

  function And(a: nat, b: nat): nat {
    if a == 0 || b == 0 then 0
    else 2 * And(a / 2, b / 2) + (if a % 2 == 1 && b % 2 == 1 then 1 else 0)
  }

  function Or(a: nat, b: nat): nat {
    if a == 0 then b
    else if b == 0 then a
    else 2 * Or(a / 2, b / 2) + (if a % 2 == 1 || b % 2 == 1 then 1 else 0)
  }

  function Xor(a: nat, b: nat): nat
    decreases a + b
  {
    if a == 0 && b == 0 then 0
    else 2 * Xor(a / 2, b / 2) + (if a % 2 != b % 2 then 1 else 0)
  }

  lemma {:induction false} Pow2Add(m: nat, n: nat)
    ensures Pow2(m + n) == Pow2(m) * Pow2(n)
  {
    if m > 0 {
      Pow2Add(m - 1, n);
    }
  }

  lemma {:induction false} Pow2Monotone(m: nat, n: nat)
    requires m <= n
    ensures Pow2(m) <= Pow2(n)
  {
    if m < n {
      Pow2Monotone(m, n - 1);
    }
  }

  lemma AndHalve(a: nat, b: nat)
    ensures And(a, b) == 2 * And(a / 2, b / 2) + (if a % 2 == 1 && b % 2 == 1 then 1 else 0)
  {
  }

  lemma OrHalve(a: nat, b: nat)
    ensures Or(a, b) == 2 * Or(a / 2, b / 2) + (if a % 2 == 1 || b % 2 == 1 then 1 else 0)
  {
  }

  /** Masking with `2^k - 1` keeps the remainder modulo `2^k`. */
  lemma {:induction false} AndMask(a: nat, k: nat)
    ensures And(a, Pow2(k) - 1) == a % Pow2(k)
  {
    if k > 0 {
      var h := Pow2(k - 1);
      AndMask(a / 2, k - 1);
      AndHalve(a, 2 * h - 1);
      HalveMod(a, h);
    }
  }

  lemma HalveMod(a: nat, h: nat)
    requires h >= 1
    ensures a % (2 * h) == 2 * ((a / 2) % h) + a % 2
    ensures a / (2 * h) == (a / 2) / h
  {
    var q, r := (a / 2) / h, (a / 2) % h;
    assert a == q * (2 * h) + (2 * r + a % 2) by {
      assert a / 2 == q * h + r;
      assert q * (2 * h) == 2 * (q * h);
    }
    ModUnique(a, 2 * h, q, 2 * r + a % 2);
  }

  lemma MulAtLeast(x: int, m: nat)
    requires x >= 1
    ensures x * m >= m
  {
    assert x * m == (x - 1) * m + m;
  }

  lemma ModUnique(a: nat, m: nat, q: nat, r: nat)
    requires m >= 1 && r < m && a == q * m + r
    ensures a % m == r && a / m == q
  {
    var q', r' := a / m, a % m;
    var d := q - q';
    assert q * m == q' * m + d * m;
    assert (-d) * m == -(d * m);
    if d >= 1 {
      MulAtLeast(d, m);
    } else if d <= -1 {
      MulAtLeast(-d, m);
    }
  }

  /** Testing one bit. */
  lemma {:induction false} AndBit(a: nat, k: nat)
    ensures And(a, Pow2(k)) == ((a / Pow2(k)) % 2) * Pow2(k)
  {
    if k == 0 {
      AndHalve(a, 1);
    } else {
      var h := Pow2(k - 1);
      AndBit(a / 2, k - 1);
      AndHalve(a, 2 * h);
      HalveMod(a, h);
      var t := (a / 2 / h) % 2;
      assert 2 * (t * h) == t * (2 * h);
    }
  }

  /** A bitwise OR with a value shifted into a gap of zero bits is an addition. */
  lemma {:induction false} OrShifted(low: nat, x: nat, y: nat, k: nat)
    requires low < Pow2(k)
    ensures Or(low + x * Pow2(k), y * Pow2(k)) == low + Or(x, y) * Pow2(k)
  {
    hide Or;
    if k > 0 {
      var h := Pow2(k - 1);
      OrShifted(low / 2, x, y, k - 1);
      Doubled(x, h);
      Doubled(y, h);
      Doubled(Or(x, y), h);
      OrStep(low, x * h, y * h);
    }
  }

  lemma OrStep(low: nat, x: nat, y: nat)
    ensures Or(low + 2 * x, 2 * y) == 2 * Or(low / 2 + x, y) + low % 2
  {
    OrHalve(low + 2 * x, 2 * y);
  }

  lemma Doubled(x: nat, h: nat)
    ensures x * (2 * h) == 2 * (x * h)
  {
  }

  lemma {:induction false} OrLow(top: nat, b: nat, m: nat)
    requires b < Pow2(m)
    ensures Or(top * Pow2(m), b) == top * Pow2(m) + b
  {
    if m > 0 {
      var h := Pow2(m - 1);
      OrLow(top, b / 2, m - 1);
      Doubled(top, h);
      OrHalve(2 * (top * h), b);
    }
  }

  /** A bit is set exactly when it is set in one of the two. */
  lemma {:induction false} XorBits(a: nat, b: nat, k: nat)
    ensures Xor(a, b) / Pow2(k) % 2 == 1 <==> a / Pow2(k) % 2 != b / Pow2(k) % 2
  {
    if k > 0 {
      XorBits(a / 2, b / 2, k - 1);
      HalveFirst(a, k);
      HalveFirst(b, k);
      HalveFirst(Xor(a, b), k);
      assert Xor(a, b) / 2 == Xor(a / 2, b / 2);
    }
  }

  lemma {:induction false} XorBound(a: nat, b: nat, k: nat)
    requires a < Pow2(k) && b < Pow2(k)
    ensures Xor(a, b) < Pow2(k)
  {
    if k > 0 {
      XorBound(a / 2, b / 2, k - 1);
    }
  }

  lemma {:induction false} XorCommutes(a: nat, b: nat)
    ensures Xor(a, b) == Xor(b, a)
    decreases a + b
  {
    if a != 0 || b != 0 {
      XorCommutes(a / 2, b / 2);
    }
  }

  lemma HalveFirst(a: nat, k: nat)
    requires k > 0
    ensures a / Pow2(k) == a / 2 / Pow2(k - 1)
  {
    HalveMod(a, Pow2(k - 1));
  }

  lemma {:induction false} XorInvolutive(a: nat, m: nat)
    ensures Xor(Xor(a, m), m) == a
    decreases a + m
  {
    if a != 0 || m != 0 {
      XorInvolutive(a / 2, m / 2);
    }
  }

  function LittleEndian(s: seq<byte>): nat {
    if s == [] then 0 else s[0] + 256 * LittleEndian(s[1..])
  }

  function BigEndian16(hi: byte, lo: byte): (n: nat)
    ensures n < 65536
  {
    256 * hi + lo
  }

  // ----- byte strings in place

  /** The data holds `s` at `pos`. */
  predicate Has(d: seq<byte>, pos: nat, s: seq<byte>) {
    pos + |s| <= |d| && d[pos..pos + |s|] == s
  }

  lemma HasSplit(d: seq<byte>, pos: nat, a: seq<byte>, b: seq<byte>)
    ensures Has(d, pos, a + b) <==> Has(d, pos, a) && Has(d, pos + |a|, b)
  {
    var s := a + b;
    if pos + |s| <= |d| {
      assert d[pos..pos + |s|] == d[pos..pos + |a|] + d[pos + |a|..pos + |s|];
      assert d[pos..pos + |s|] == s ==> d[pos..pos + |s|][..|a|] == a && d[pos..pos + |s|][|a|..] == b;
    }
  }
}
