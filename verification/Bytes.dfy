/** Machine integers: bytes, little-endian words and the bit operations the kernel uses on them. */
module Bytes {

  const TWO32 := 0x1_0000_0000
  const TWO64 := 0x1_0000_0000_0000_0000

  type byte = x: int | 0 <= x < 256

  datatype Option<+T> = None | Some(value: T)

  function Pow256(n: nat): (p: nat)
    ensures p > 0
  {
    if n == 0 then 1 else 256 * Pow256(n - 1)
  }

  /** The `n` low bytes of `v`, least significant first. */
  function ToLe(v: nat, n: nat): (b: seq<byte>)
    ensures |b| == n
  {
    if n == 0 then [] else [v % 256] + ToLe(v / 256, n - 1)
  }

  function FromLe(b: seq<byte>): nat {
    if b == [] then 0 else b[0] + 256 * FromLe(b[1..])
  }

  /** A stored word reads back as itself, truncated to the width it was stored at. */
  lemma {:induction false} LeRoundTrip(v: nat, n: nat)
    ensures FromLe(ToLe(v, n)) == v % Pow256(n)
  {
    if n == 0 {
    } else {
      LeRoundTrip(v / 256, n - 1);
      assert ToLe(v, n)[1..] == ToLe(v / 256, n - 1);
      ModSplit(v, Pow256(n - 1));
    }
  }

  /** Every run of bytes is a stored word. */
  lemma {:induction false} LeBack(b: seq<byte>)
    ensures ToLe(FromLe(b), |b|) == b
  {
    if b != [] {
      LeBack(b[1..]);
      assert FromLe(b) % 256 == b[0] && FromLe(b) / 256 == FromLe(b[1..]);
      assert b == [b[0]] + b[1..];
    }
  }

  /** Byte `i` of a stored word is digit `i` to base 256: least significant first. */
  lemma {:induction false} LeDigit(v: nat, n: nat, i: nat)
    requires i < n
    ensures ToLe(v, n)[i] == v / Pow256(i) % 256
  {
    if i > 0 {
      LeDigit(v / 256, n - 1, i - 1);
      DivTwice(v, 256, Pow256(i - 1));
    }
  }

  lemma DivTwice(v: nat, a: nat, b: nat)
    requires a > 0 && b > 0
    ensures a * b > 0 && v / a / b == v / (a * b)
  {
    var w, t := v / a, v % a;
    var q, r := w / b, w % b;
    Compose(v, a, b, w, t, q, r);
    ModUnique(v, a * b, q, a * r + t);
  }

  lemma Compose(v: nat, a: nat, b: nat, w: nat, t: nat, q: nat, r: nat)
    requires v == a * w + t && t < a && w == b * q + r && r < b
    ensures a * b > 0 && v == a * b * q + (a * r + t) && a * r + t < a * b
  {
    assert a * w == a * (b * q) + a * r;
    assert a * (b * q) == a * b * q;
    MulMono(a, r + 1, b);
  }

  /** A word is stored in two halves, the low one first. */
  lemma {:induction false} LeHalves(low: nat, high: nat, a: nat, b: nat)
    requires low < Pow256(a)
    ensures ToLe(low + Pow256(a) * high, a + b) == ToLe(low, a) + ToLe(high, b)
    decreases a
  {
    if a > 0 {
      var v := low + Pow256(a) * high;
      HalfStep(low, high, Pow256(a - 1));
      LeHalves(low / 256, high, a - 1, b);
      assert ToLe(v, a + b) == [v % 256] + ToLe(v / 256, a + b - 1);
    }
  }

  lemma HalfStep(low: nat, high: nat, p: nat)
    requires low < 256 * p
    ensures (low + 256 * p * high) / 256 == low / 256 + p * high && (low + 256 * p * high) % 256 == low % 256 && low / 256 < p
  {
    var q := low / 256;
    assert 256 * p * high == 256 * (p * high);
    ModUnique(low + 256 * p * high, 256, q + p * high, low % 256);
  }

  lemma ModSplit(v: nat, p: nat)
    requires p > 0
    ensures v % (256 * p) == v % 256 + 256 * ((v / 256) % p)
  {
    var q, r := v / 256, v % 256;
    var a, b := q / p, q % p;
    assert q == p * a + b;
    assert v == (256 * p) * a + (256 * b + r) by {
      assert v == 256 * q + r;
      assert 256 * (p * a) == (256 * p) * a;
    }
    ModUnique(v, 256 * p, a, 256 * b + r);
  }

  lemma ModUnique(v: nat, d: nat, a: nat, r: nat)
    requires d > 0 && v == d * a + r && r < d
    ensures v % d == r && v / d == a
  {
    var q, s := v / d, v % d;
    assert v == d * q + s;
    if q < a {
      assert d * a >= d * (q + 1) by { MulMono(d, q + 1, a); }
    } else if q > a {
      assert d * q >= d * (a + 1) by { MulMono(d, a + 1, q); }
    }
  }

  lemma MulMono(d: nat, x: nat, y: nat)
    requires x <= y
    ensures d * x <= d * y
  {
  }

  lemma Pow256Word()
    ensures Pow256(4) == TWO32 && Pow256(8) == TWO64
  {
    assert Pow256(2) == 65536;
    assert Pow256(4) == 256 * (256 * Pow256(2));
    assert Pow256(6) == 256 * (256 * Pow256(4));
  }

  lemma {:induction false} FromLeBound(b: seq<byte>)
    ensures FromLe(b) < Pow256(|b|)
  {
    if b != [] {
      FromLeBound(b[1..]);
    }
  }

  /** Bitwise or. */
  function Or(a: nat, b: nat): nat
    decreases a + b
  {
    if a == 0 then b
    else if b == 0 then a
    else (if a % 2 == 1 || b % 2 == 1 then 1 else 0) + 2 * Or(a / 2, b / 2)
  }

  function Pow2(n: nat): (p: nat)
    ensures p > 0
  {
    if n == 0 then 1 else 2 * Pow2(n - 1)
  }

  function Shift(a: nat, n: nat): nat {
    if n == 0 then a else Shift(a / 2, n - 1)
  }

  /** Bit `k` of `a`. */
  predicate Bit(a: nat, k: nat) { Shift(a, k) % 2 == 1 }

  /** Bit `k` is binary digit `k`. */
  lemma {:induction false} BitIs(a: nat, k: nat)
    ensures Bit(a, k) <==> a / Pow2(k) % 2 == 1
  {
    ShiftIs(a, k);
  }

  lemma {:induction false} ShiftIs(a: nat, k: nat)
    ensures Shift(a, k) == a / Pow2(k)
    decreases k
  {
    if k > 0 {
      ShiftIs(a / 2, k - 1);
      DivTwice(a, 2, Pow2(k - 1));
    }
  }

  /** A right shift of an or is the or of the right shifts. */
  lemma {:induction false} OrShift(a: nat, b: nat, n: nat)
    ensures Shift(Or(a, b), n) == Or(Shift(a, n), Shift(b, n))
    decreases n
  {
    if n > 0 {
      OrShift(a / 2, b / 2, n - 1);
    }
  }

  lemma OrBit(a: nat, b: nat, k: nat)
    ensures Bit(Or(a, b), k) <==> Bit(a, k) || Bit(b, k)
  {
    hide Or, Shift;
    OrShift(a, b, k);
    OrHalves(Shift(a, k), Shift(b, k));
  }

  lemma {:induction false} OrBelow(a: nat, b: nat, n: nat)
    requires a < Pow2(n) && b < Pow2(n)
    ensures Or(a, b) < Pow2(n)
  {
    if n > 0 && a > 0 && b > 0 {
      OrBelow(a / 2, b / 2, n - 1);
    }
  }

  lemma Shift4(a: nat, n: nat)
    ensures Shift(a, n + 4) == Shift(a / 16, n)
  {
    Shift2(a, n + 2);
    Shift2(a / 4, n);
    assert a / 4 / 4 == a / 16;
  }

  lemma Shift2(a: nat, n: nat)
    ensures Shift(a, n + 2) == Shift(a / 4, n)
  {
    assert Shift(a, n + 2) == Shift(a / 2, n + 1);
    assert a / 2 / 2 == a / 4;
  }

  lemma Shift7(a: nat)
    ensures Shift(a, 7) == a / 128
  {
    Shift4(a, 3);
    Shift2(a / 16, 1);
    assert a / 16 / 4 == a / 64 && a / 64 / 2 == a / 128;
    assert Shift(a / 64, 1) == Shift(a / 128, 0);
  }

  lemma Shift12(a: nat)
    ensures Shift(a, 12) == a / 4096
  {
    Shift4(a, 8);
    Shift4(a / 16, 4);
    assert a / 16 / 16 == a / 256;
    Shift4(a / 256, 0);
  }

  lemma Pow2Word()
    ensures Pow2(64) == TWO64
  {
    assert Pow2(4) == 16;
    Pow2Sum(4, 4);
    assert Pow2(8) == 256;
    Pow2Sum(8, 8);
    assert Pow2(16) == 65536;
    Pow2Sum(16, 16);
    assert Pow2(32) == TWO32;
    Pow2Sum(32, 32);
  }

  lemma {:induction false} Pow2Sum(a: nat, b: nat)
    ensures Pow2(a + b) == Pow2(a) * Pow2(b)
  {
    if a > 0 {
      Pow2Sum(a - 1, b);
      assert Pow2(a + b) == 2 * (Pow2(a - 1) * Pow2(b));
    }
  }

  /** The low bits of an or are the or of the low bits. */
  lemma {:induction false} OrLow(a: nat, b: nat, n: nat)
    ensures Or(a, b) % Pow2(n) == Or(a % Pow2(n), b % Pow2(n))
    decreases n
  {
    if n > 0 {
      var p := Pow2(n - 1);
      LowHalf(Or(a, b), p);
      LowHalf(a, p);
      LowHalf(b, p);
      OrHalves(a, b);
      OrLow(a / 2, b / 2, n - 1);
      OrHalves(a % (2 * p), b % (2 * p));
    }
  }

  lemma LowHalf(x: nat, p: nat)
    requires p > 0
    ensures x % (2 * p) == x % 2 + 2 * (x / 2 % p)
    ensures x % (2 * p) % 2 == x % 2 && x % (2 * p) / 2 == x / 2 % p
  {
    var q, r := x / 2 / p, x / 2 % p;
    assert x / 2 == p * q + r;
    assert x == 2 * p * q + (x % 2 + 2 * r);
    ModUnique(x, 2 * p, q, x % 2 + 2 * r);
  }

  lemma OrHalves(a: nat, b: nat)
    ensures Or(a, b) / 2 == Or(a / 2, b / 2)
    ensures Or(a, b) % 2 == if a % 2 == 1 || b % 2 == 1 then 1 else 0
    ensures Or(a, b) == Or(a, b) % 2 + 2 * Or(a / 2, b / 2)
  {
  }

  /** An or is at least each of its operands. */
  lemma {:induction false} OrAbove(a: nat, b: nat)
    ensures Or(a, b) >= a && Or(a, b) >= b
    decreases a + b
  {
    if a > 0 && b > 0 { OrAbove(a / 2, b / 2); }
  }

  lemma OrWord(a: nat, b: nat)
    requires a < TWO64 && b < TWO64
    ensures Or(a, b) < TWO64
  {
    Pow2Word();
    OrBelow(a, b, 64);
  }

  /** The `n`-byte little-endian field of a buffer at `off`. */
  function Field(buf: seq<byte>, off: nat, n: nat): nat
    requires off + n <= |buf|
  {
    FromLe(buf[off..off + n])
  }

  /** `a & ~b` */
  function AndNot(a: nat, b: nat): nat {
    if a == 0 then 0 else (if a % 2 == 1 && b % 2 == 0 then 1 else 0) + 2 * AndNot(a / 2, b / 2)
  }

  /** Clearing the low `k` bits. */
  lemma {:induction false} AndNotLow(a: nat, k: nat)
    ensures AndNot(a, Pow2(k) - 1) == a / Pow2(k) * Pow2(k)
    decreases k, a
  {
    if a == 0 {
    } else if k == 0 {
      AndNotZero(a);
    } else {
      var p := Pow2(k - 1);
      assert Pow2(k) == 2 * p;
      hide AndNot, Pow2;
      AndNotLow(a / 2, k - 1);
      HalfCleared(a, p);
    }
  }

  lemma HalfCleared(a: nat, p: nat)
    requires p > 0 && AndNot(a / 2, p - 1) == a / 2 / p * p
    ensures AndNot(a, 2 * p - 1) == a / (2 * p) * (2 * p)
  {
    hide AndNot;
    AndNotStep(a, p);
    DivDiv(a, p);
  }

  lemma AndNotStep(a: nat, p: nat)
    requires p > 0
    ensures AndNot(a, 2 * p - 1) == 2 * AndNot(a / 2, p - 1)
  {
    assert (2 * p - 1) / 2 == p - 1 && (2 * p - 1) % 2 == 1;
  }

  lemma {:induction false} AndNotZero(a: nat)
    ensures AndNot(a, 0) == a
  {
    if a > 0 { AndNotZero(a / 2); }
  }

  lemma DivDiv(a: nat, p: nat)
    requires p > 0
    ensures a / 2 / p == a / (2 * p)
  {
    var q := a / 2 / p;
    var r := a / 2 - p * q;
    assert a == 2 * (p * q + r) + a % 2;
    assert 2 * (p * q) == 2 * p * q;
    ModUnique(a, 2 * p, q, 2 * r + a % 2);
  }
}
