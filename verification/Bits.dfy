/** Bitwise operations on non-negative integers, and big-endian words, as
    JavaScript's BigInt, number and DataView compute them. */
module Bits {
  import opened Basics

  /** Bit `i` of `n`. */
  predicate Bit(n: nat, i: nat) {
    if i == 0 then n % 2 == 1 else Bit(n / 2, i - 1)
  }

  function Or(a: nat, b: nat): nat {
    if a == 0 && b == 0 then 0
    else 2 * Or(a / 2, b / 2) + (if a % 2 == 1 || b % 2 == 1 then 1 else 0)
  }

  function And(a: nat, b: nat): nat {
    if a == 0 || b == 0 then 0
    else 2 * And(a / 2, b / 2) + (if a % 2 == 1 && b % 2 == 1 then 1 else 0)
  }

  function Xor(a: nat, b: nat): nat {
    if a == 0 && b == 0 then 0
    else 2 * Xor(a / 2, b / 2) + (a + b) % 2
  }

  lemma {:induction false} XorSelf(a: nat)
    ensures Xor(a, a) == 0
  {
    if a > 0 { XorSelf(a / 2); }
  }

  function Pow2(k: nat): (r: nat)
    ensures r >= 1
  {
    if k == 0 then 1 else 2 * Pow2(k - 1)
  }

  /** `1 << k`. */
  function ShiftOne(k: nat): nat {
    Pow2(k)
  }

  lemma {:induction false} ZeroHasNoBits(i: nat)
    ensures !Bit(0, i)
  {
    if i > 0 { ZeroHasNoBits(i - 1); }
  }

  lemma {:induction false} OrBits(a: nat, b: nat, i: nat)
    ensures Bit(Or(a, b), i) <==> Bit(a, i) || Bit(b, i)
  {
    if a == 0 && b == 0 {
      ZeroHasNoBits(i);
    } else if i > 0 {
      OrBits(a / 2, b / 2, i - 1);
    }
  }

  lemma {:induction false} AndBits(a: nat, b: nat, i: nat)
    ensures Bit(And(a, b), i) <==> Bit(a, i) && Bit(b, i)
  {
    if a == 0 || b == 0 {
      ZeroHasNoBits(i);
    } else if i > 0 {
      AndBits(a / 2, b / 2, i - 1);
    }
  }

  lemma {:induction false} ShiftOneBits(k: nat, i: nat)
    ensures Bit(ShiftOne(k), i) <==> i == k
  {
    if k == 0 {
      if i > 0 { ZeroHasNoBits(i - 1); }
    } else if i > 0 {
      ShiftOneBits(k - 1, i - 1);
    }
  }

  /** Numbers with the same bits are equal. */
  lemma {:induction false} BitsDetermine(a: nat, b: nat)
    requires forall i: nat :: Bit(a, i) <==> Bit(b, i)
    ensures a == b
  {
    if a != 0 || b != 0 {
      assert Bit(a, 0) <==> Bit(b, 0);
      forall i: nat ensures Bit(a / 2, i) <==> Bit(b / 2, i) {
        assert Bit(a, i + 1) <==> Bit(b, i + 1);
      }
      BitsDetermine(a / 2, b / 2);
    }
  }

  lemma {:induction false} XorBits(a: nat, b: nat, i: nat)
    ensures Bit(Xor(a, b), i) <==> Bit(a, i) != Bit(b, i)
  {
    XorHalves(a, b);
    if i > 0 {
      XorBits(a / 2, b / 2, i - 1);
      hide Xor;
    }
  }

  lemma XorHalves(a: nat, b: nat)
    ensures Xor(a, b) / 2 == Xor(a / 2, b / 2)
    ensures Xor(a, b) % 2 == (a + b) % 2
  {
  }

  // Division.

  lemma Quotient(a: nat, m: nat, q: nat, r: nat)
    requires m > 0 && a == m * q + r && r < m
    ensures a / m == q && a % m == r
  {
    assert a == m * (a / m) + a % m;
    UniqueQuotient(m, q, r, a / m, a % m);
  }

  lemma UniqueQuotient(m: nat, q: int, r: nat, d: int, e: nat)
    requires m * q + r == m * d + e && r < m && e < m
    ensures q == d && r == e
  {
    var x := q - d;
    assert m * q - m * d == m * x;
    assert m * d - m * q == m * -x;
    if x > 0 { AtLeast(m, x); }
    if x < 0 { AtLeast(m, -x); }
  }

  lemma AtLeast(m: nat, x: nat)
    requires x >= 1
    ensures m * x >= m
  {
  }

  lemma DivideTwice(n: nat, a: nat, b: nat)
    requires a > 0 && b > 0
    ensures n / a / b == n / (a * b)
  {
    var d := n / a;
    var q, r := d / b, d % b;
    Euclid(n, a);
    Euclid(d, b);
    Regrouped(a, b, d, q, r, n % a);
    Times(a, b, r, n % a);
    Quotient(n, a * b, q, a * r + n % a);
  }

  lemma Euclid(n: nat, m: nat)
    requires m > 0
    ensures n == m * (n / m) + n % m && n % m < m
  {
  }

  lemma Regrouped(a: nat, b: nat, d: nat, q: nat, r: nat, s: nat)
    requires d == b * q + r
    ensures a * d + s == (a * b) * q + (a * r + s)
  {
    assert a * (b * q + r) == a * (b * q) + a * r;
    assert a * (b * q) == (a * b) * q;
  }

  lemma Times(a: nat, b: nat, r: nat, s: nat)
    requires r < b && s < a
    ensures 0 < a * b && a * r + s < a * b
  {
    var d := b - r;
    assert a * b == a * r + a * d;
    AtLeast(a, d);
  }

  /** Bit `i` is the digit of weight two to the `i`. */
  lemma {:induction false} BitIsDigit(n: nat, i: nat)
    ensures Bit(n, i) <==> n / Pow2(i) % 2 == 1
  {
    if i > 0 {
      BitIsDigit(n / 2, i - 1);
      DivideTwice(n, 2, Pow2(i - 1));
    }
  }

  /** Or-ing a set bit changes nothing, and only a set bit: the test the filter
      uses on each word. */
  lemma OrTestsBit(w: nat, k: nat)
    ensures w == Or(w, ShiftOne(k)) <==> Bit(w, k)
  {
    OrBits(w, ShiftOne(k), k);
    ShiftOneBits(k, k);
    if Bit(w, k) {
      forall i: nat ensures Bit(w, i) <==> Bit(Or(w, ShiftOne(k)), i) {
        OrBits(w, ShiftOne(k), i);
        ShiftOneBits(k, i);
      }
      BitsDetermine(w, Or(w, ShiftOne(k)));
    }
  }

  /** And-ing with a single bit tests it. */
  lemma AndTestsBit(w: nat, k: nat)
    ensures And(w, ShiftOne(k)) != 0 <==> Bit(w, k)
  {
    AndBits(w, ShiftOne(k), k);
    ShiftOneBits(k, k);
    if !Bit(w, k) {
      forall i: nat ensures Bit(And(w, ShiftOne(k)), i) <==> Bit(0, i) {
        AndBits(w, ShiftOne(k), i);
        ShiftOneBits(k, i);
        ZeroHasNoBits(i);
      }
      BitsDetermine(And(w, ShiftOne(k)), 0);
    } else {
      ZeroHasNoBits(k);
    }
  }

  lemma {:induction false} OrBound(a: nat, b: nat, k: nat)
    requires a < Pow2(k) && b < Pow2(k)
    ensures Or(a, b) < Pow2(k)
  {
    if k > 0 {
      OrBound(a / 2, b / 2, k - 1);
    }
  }

  lemma {:induction false} Pow2Monotone(a: nat, b: nat)
    requires a <= b
    ensures Pow2(a) <= Pow2(b)
    ensures a < b ==> Pow2(a) < Pow2(b)
  {
    if a < b { Pow2Monotone(a, b - 1); }
  }

  // Big-endian words.

  function Pow256(k: nat): (r: nat)
    ensures r >= 1
  {
    if k == 0 then 1 else 256 * Pow256(k - 1)
  }

  /** The low `w` bytes of `n`, most significant first. */
  function BigEndian(n: nat, w: nat): (r: Bytes)
    ensures |r| == w
  {
    if w == 0 then [] else BigEndian(n / 256, w - 1) + [n % 256]
  }

  /** Byte `k` is the digit of weight 256 to the `w - 1 - k`. */
  lemma {:induction false} BigEndianDigit(n: nat, w: nat, k: nat)
    requires k < w
    ensures BigEndian(n, w)[k] == n / Pow256(w - 1 - k) % 256
  {
    if k < w - 1 {
      BigEndianDigit(n / 256, w - 1, k);
      DivideTwice(n, 256, Pow256(w - 2 - k));
    }
  }

  function FromBigEndian(s: Bytes): nat {
    if |s| == 0 then 0 else FromBigEndian(s[..|s| - 1]) * 256 + s[|s| - 1]
  }

  lemma {:induction false} BigEndianRoundTrip(n: nat, w: nat)
    requires n < Pow256(w)
    ensures FromBigEndian(BigEndian(n, w)) == n
  {
    if w > 0 {
      BigEndianRoundTrip(n / 256, w - 1);
      assert BigEndian(n, w)[..w - 1] == BigEndian(n / 256, w - 1);
    }
  }

  lemma {:induction false} FromBigEndianBound(s: Bytes)
    ensures FromBigEndian(s) < Pow256(|s|)
  {
    if |s| > 0 {
      FromBigEndianBound(s[..|s| - 1]);
    }
  }

  lemma {:induction false} Pow256IsPow2(k: nat)
    ensures Pow256(k) == Pow2(8 * k)
  {
    if k > 0 {
      Pow256IsPow2(k - 1);
      var e := 8 * k;
      assert Pow2(e) == 2 * Pow2(e - 1) && Pow2(e - 1) == 2 * Pow2(e - 2);
      assert Pow2(e - 2) == 2 * Pow2(e - 3) && Pow2(e - 3) == 2 * Pow2(e - 4);
      assert Pow2(e - 4) == 2 * Pow2(e - 5) && Pow2(e - 5) == 2 * Pow2(e - 6);
      assert Pow2(e - 6) == 2 * Pow2(e - 7) && Pow2(e - 7) == 2 * Pow2(e - 8);
    }
  }

  lemma Pow256Word()
    ensures Pow256(8) == Pow2(64) == 0x1_0000_0000_0000_0000
    ensures Pow256(2) == 0x1_0000
  {
    Pow256IsPow2(8);
  }
}
