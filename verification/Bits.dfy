// Bitwise operations of the C code on unsigned integers, as functions on naturals.
module Bits {
  type byte = b: int | 0 <= b < 256

  function Pow2(k: nat): (p: nat)
    ensures p > 0
  { if k == 0 then 1 else 2 * Pow2(k - 1) }

  lemma {:induction false} Pow2Monotone(a: nat, b: nat)
    requires a <= b
    ensures Pow2(a) <= Pow2(b)
  {
    if a < b { Pow2Monotone(a, b - 1); }
  }

  // a & b
  function And(a: nat, b: nat): nat {
    if a == 0 || b == 0 then 0 else (if a % 2 == 1 && b % 2 == 1 then 1 else 0) + 2 * And(a / 2, b / 2)
  }

  // a ^ b
  function Xor(a: nat, b: nat): nat
    decreases a + b
  {
    if a == 0 && b == 0 then 0 else (if a % 2 != b % 2 then 1 else 0) + 2 * Xor(a / 2, b / 2)
  }

  // Masking with size - 1 is the remainder, for a power of two.
  lemma {:induction false} AndMask(a: nat, k: nat)
    ensures And(a, Pow2(k) - 1) == a % Pow2(k)
  {
    var n := Pow2(k);
    if k == 0 {
      assert n == 1;
    } else if a == 0 {
      ModUnique(0, n, 0, 0);
    } else {
      AndMask(a / 2, k - 1);
      AndMaskStep(a, Pow2(k - 1), n);
    }
  }

  lemma AndMaskStep(a: nat, h: nat, n: nat)
    requires a > 0 && h > 0 && n == 2 * h && And(a / 2, h - 1) == (a / 2) % h
    ensures And(a, n - 1) == a % n
  {
    HalfMod(a, h);
    assert (n - 1) / 2 == h - 1 && (n - 1) % 2 == 1;
  }

  lemma HalfMod(a: nat, h: nat)
    requires h > 0
    ensures a % (2 * h) == a % 2 + 2 * ((a / 2) % h)
  {
    var q, r := a / 2 / h, a / 2 % h;
    assert a / 2 == q * h + r;
    assert a == (2 * h) * q + (2 * r + a % 2) by { assert 2 * (q * h) == (2 * h) * q; }
    ModUnique(a, 2 * h, q, 2 * r + a % 2);
  }

  lemma ModUnique(a: int, n: int, q: int, r: int)
    requires n > 0 && 0 <= r < n && a == n * q + r
    ensures a % n == r && a / n == q
  {
    var q', r' := a / n, a % n;
    assert n * (q - q') == r' - r;
    Scale(n, q - q');
  }

  // A non-zero multiple of n is at least n away from 0.
  lemma Scale(n: int, d: int)
    requires n > 0
    ensures d >= 1 ==> n * d >= n
    ensures d <= -1 ==> n * d <= -n
  {
    assert n * d == n + n * (d - 1);
    assert n * d == n * (d + 1) - n;
    assert d >= 1 ==> n * (d - 1) >= 0;
    assert d <= -1 ==> n * (d + 1) <= 0;
  }

  lemma AndEven(a: nat, b: nat)
    ensures And(a, 2 * b) == 2 * And(a / 2, b)
  {
    if a == 0 || b == 0 { assert And(a / 2, b) == 0; }
  }

  // Masking with a power of two leaves one bit.
  lemma {:induction false} AndBit(a: nat, k: nat)
    ensures And(a, Pow2(k)) == if a / Pow2(k) % 2 == 1 then Pow2(k) else 0
  {
    if k == 0 {
      assert And(a, 1) == a % 2;
    } else if a == 0 {
      ModUnique(0, Pow2(k), 0, 0);
    } else {
      AndBit(a / 2, k - 1);
      HalfDiv(a, Pow2(k - 1));
    }
  }

  lemma HalfDiv(a: nat, h: nat)
    requires h > 0
    ensures a / 2 / h == a / (2 * h)
  {
    var q, r := a / 2 / h, a / 2 % h;
    assert a / 2 == q * h + r;
    assert a == (2 * h) * q + (2 * r + a % 2) by { assert 2 * (q * h) == (2 * h) * q; }
    ModUnique(a, 2 * h, q, 2 * r + a % 2);
  }

  // Applying the same mask twice undoes it.
  lemma {:induction false} XorCancel(a: nat, b: nat)
    ensures Xor(Xor(a, b), b) == a
    decreases a + b
  {
    if a != 0 || b != 0 {
      XorCancel(a / 2, b / 2);
      var x := Xor(a, b);
      assert x % 2 == (if a % 2 != b % 2 then 1 else 0) && x / 2 == Xor(a / 2, b / 2);
      assert x == 0 && b == 0 ==> a == 0;
    }
  }

  lemma {:induction false} XorBound(a: nat, b: nat, k: nat)
    requires a < Pow2(k) && b < Pow2(k)
    ensures Xor(a, b) < Pow2(k)
    decreases k
  {
    if k > 0 { XorBound(a / 2, b / 2, k - 1); }
  }

  function XorByte(a: byte, b: byte): byte {
    assert Pow2(8) == 256 by { assert Pow2(4) == 16; }
    XorBound(a, b, 8);
    Xor(a, b)
  }

  lemma {:induction false} XorZero(a: nat)
    ensures Xor(a, 0) == a && Xor(0, a) == a
  {
    if a > 0 { XorZero(a / 2); }
  }

  // The exclusive or of all bytes.
  function XorAll(s: seq<byte>): byte
  { if s == [] then 0 else XorByte(XorAll(s[..|s| - 1]), s[|s| - 1]) }

  lemma XorAllOne(b: byte)
    ensures XorAll([b]) == b
  {
    XorZero(b);
    assert [b][..0] == [];
  }

  // Bytes with their sum behind them cancel out.
  lemma XorAllSealed(s: seq<byte>)
    ensures XorAll(s + [XorAll(s)]) == 0
  {
    assert (s + [XorAll(s)])[..|s|] == s;
    XorSelf(XorAll(s));
  }

  lemma {:induction false} XorSelf(a: nat)
    ensures Xor(a, a) == 0
  {
    if a > 0 { XorSelf(a / 2); }
  }

  function Min(a: nat, b: nat): nat { if a > b then b else a }
}
