// Words as numbers: the bitwise operators of C on nonnegative integers, and their arithmetic meaning.
module Bits {

  function Pow2(n: nat): (p: nat)
    ensures p >= 1
  {
    if n == 0 then 1 else 2 * Pow2(n - 1)
  }

  // Bit i of x in two's complement.
  predicate Bit(x: int, i: nat)
    decreases i
  {
    if i == 0 then x % 2 == 1 else Bit(x / 2, i - 1)
  }

  function And(x: nat, y: nat): nat {
    if x == 0 then 0 else 2 * And(x / 2, y / 2) + (if x % 2 == 1 && y % 2 == 1 then 1 else 0)
  }

  function Or(x: nat, y: nat): nat
    decreases x + y
  {
    if x == 0 && y == 0 then 0 else 2 * Or(x / 2, y / 2) + (if x % 2 == 1 || y % 2 == 1 then 1 else 0)
  }

  // ~x in a word of w bits.
  function Not(w: nat, x: nat): nat
    requires x < Pow2(w)
  {
    Pow2(w) - 1 - x
  }

  // x >> n
  function Shr(x: nat, n: nat): nat
    decreases n
  {
    if n == 0 then x else Shr(x / 2, n - 1)
  }

  // x << n, without the truncation to the word.
  function Shl(x: nat, n: nat): nat {
    if n == 0 then x else 2 * Shl(x, n - 1)
  }

  // The low w bits.
  function Low(w: nat, x: int): (r: nat)
    ensures r < Pow2(w)
  {
    x % Pow2(w)
  }

  // The signed reading of a word of w bits.
  function Signed(w: nat, x: int): int
    requires w >= 1
  {
    if x < Pow2(w - 1) then x else x - Pow2(w)
  }

  predicate InSigned(w: nat, n: int)
    requires w >= 1
  {
    -(Pow2(w - 1) as int) <= n < Pow2(w - 1)
  }

  lemma Pow2Values()
    ensures Pow2(0) == 1 && Pow2(1) == 2 && Pow2(3) == 8 && Pow2(4) == 0x10 && Pow2(5) == 0x20
    ensures Pow2(7) == 0x80 && Pow2(8) == 0x100
    ensures Pow2(15) == 0x8000 && Pow2(16) == 0x1_0000 && Pow2(17) == 0x2_0000
    ensures Pow2(31) == 0x8000_0000 && Pow2(32) == 0x1_0000_0000
  {
    assert Pow2(4) == 16;
    assert Pow2(8) == 256;
    assert Pow2(12) == 0x1000;
    assert Pow2(16) == 0x1_0000;
    assert Pow2(20) == 0x10_0000;
    assert Pow2(24) == 0x100_0000;
    assert Pow2(28) == 0x1000_0000;
    assert Pow2(32) == 0x1_0000_0000;
  }

  lemma {:induction false} Pow2Sum(m: nat, n: nat, k: nat)
    requires k == m + n
    ensures Pow2(k) == Pow2(m) * Pow2(n)
    decreases m
  {
    if m > 0 {
      Pow2Sum(m - 1, n, k - 1);
      Double(Pow2(m - 1), Pow2(n), Pow2(k - 1));
    }
  }

  lemma Double(a: int, b: int, c: int)
    requires c == a * b
    ensures 2 * c == (2 * a) * b
  {
  }

  lemma {:induction false} Pow2Grows(m: nat, n: nat)
    requires m <= n
    ensures Pow2(m) <= Pow2(n)
    decreases n
  {
    if m < n { Pow2Grows(m, n - 1); }
  }

  // ------------------------------------------------------- bits of the operators

  lemma {:induction false} AndBit(x: nat, y: nat, i: nat)
    ensures Bit(And(x, y), i) <==> Bit(x, i) && Bit(y, i)
    decreases i
  {
    if i > 0 {
      AndBit(x / 2, y / 2, i - 1);
      if x == 0 { ZeroBit(i); }
    }
  }

  lemma {:induction false} ZeroBit(i: nat)
    ensures !Bit(0, i)
  {
    if i > 0 { ZeroBit(i - 1); }
  }

  lemma Twice(h: nat, b: nat)
    requires b < 2
    ensures (2 * h + b) / 2 == h && (2 * h + b) % 2 == b
  {
  }

  lemma OrStep(x: nat, y: nat)
    ensures Or(x, y) / 2 == Or(x / 2, y / 2)
    ensures Or(x, y) % 2 == 1 <==> x % 2 == 1 || y % 2 == 1
  {
    if x != 0 || y != 0 { Twice(Or(x / 2, y / 2), if x % 2 == 1 || y % 2 == 1 then 1 else 0); }
  }

  lemma {:induction false} OrBit(x: nat, y: nat, i: nat)
    ensures Bit(Or(x, y), i) <==> Bit(x, i) || Bit(y, i)
    decreases i
  {
    hide Or;
    OrStep(x, y);
    if i > 0 { OrBit(x / 2, y / 2, i - 1); }
  }

  lemma {:induction false} NotBit(w: nat, x: nat, i: nat)
    requires x < Pow2(w) && i < w
    ensures Bit(Not(w, x), i) <==> !Bit(x, i)
    decreases i
  {
    assert Not(w, x) == 2 * (Pow2(w - 1) - 1 - x / 2) + (1 - x % 2);
    if i > 0 { NotBit(w - 1, x / 2, i - 1); }
  }

  lemma HalfLow(x: int, w: nat)
    requires w >= 1
    ensures Low(w, x) == 2 * Low(w - 1, x / 2) + x % 2
  {
    var p, h := Pow2(w - 1), x / 2;
    var q, r := h / p, h % p;
    Residue(x, 2 * p, 2 * r + x % 2, q) by {
      assert h == q * p + r;
      DoubleProduct(q, p);
    }
  }

  lemma DoubleProduct(q: int, p: int)
    ensures 2 * (q * p) == q * (2 * p)
  {
  }

  // A number is its own remainder.
  lemma Residue(x: int, m: nat, r: int, q: int)
    requires m > 0 && 0 <= r < m && x == q * m + r
    ensures x % m == r && x / m == q
  {
    var d := x / m - q;
    assert x / m * m + x % m == x;
    Distribute(x / m, q, m);
    assert d * m == r - x % m;
    Bounded(d, m);
  }

  lemma Distribute(a: int, b: int, m: int)
    ensures (a - b) * m == a * m - b * m
  {
  }

  lemma Bounded(d: int, m: int)
    requires m > 0 && -m < d * m < m
    ensures d == 0
  {
  }

  lemma {:induction false} LowBit(w: nat, x: int, i: nat)
    requires i < w
    ensures Bit(Low(w, x), i) <==> Bit(x, i)
    decreases i
  {
    HalfLow(x, w);
    if i > 0 { LowBit(w - 1, x / 2, i - 1); }
  }

  lemma {:induction false} ShrBit(x: nat, n: nat, i: nat, k: nat)
    requires k == n + i
    ensures Bit(Shr(x, n), i) <==> Bit(x, k)
    decreases n
  {
    if n > 0 { ShrBit(x / 2, n - 1, i, k - 1); }
  }

  lemma {:induction false} ShrIsQuotient(x: nat, n: nat)
    ensures Shr(x, n) == x / Pow2(n)
    decreases n
  {
    if n > 0 {
      var p, h := Pow2(n - 1), x / 2;
      ShrIsQuotient(h, n - 1);
      assert Pow2(n) == 2 * p && Shr(x, n) == Shr(h, n - 1);
      hide Shr, Pow2;
      HalfQuotient(x, p, h);
    }
  }

  lemma HalfQuotient(x: nat, p: nat, h: nat)
    requires p > 0 && h == x / 2
    ensures x / (2 * p) == h / p
  {
    var q, r := h / p, h % p;
    assert h == q * p + r;
    DoubleProduct(q, p);
    Residue(x, 2 * p, 2 * r + x % 2, q);
  }

  lemma {:induction false} ShlIsProduct(x: nat, n: nat)
    ensures Shl(x, n) == x * Pow2(n)
    decreases n
  {
    if n > 0 {
      ShlIsProduct(x, n - 1);
      Double(Pow2(n - 1), x, Shl(x, n - 1));
    }
  }

  // The bits of two numbers put side by side.
  lemma {:induction false} JoinedBit(x: int, y: nat, low: nat, n: nat, j: nat)
    requires low < Pow2(n) && x == Shl(y, n) + low
    ensures j < n ==> (Bit(x, j) <==> Bit(low, j))
    ensures j >= n ==> (Bit(x, j) <==> Bit(y, j - n))
    decreases n
  {
    if n > 0 && j > 0 { JoinedBit(x / 2, y, low / 2, n - 1, j - 1); }
  }

  // The top bit of a word.
  lemma {:induction false} TopBit(x: nat, n: nat)
    requires x < 2 * Pow2(n)
    ensures Bit(x, n) <==> x >= Pow2(n)
    decreases n
  {
    if n > 0 { TopBit(x / 2, n - 1); }
  }

  // ----------------------------------------------------------------- masks

  // x & (1 << i)
  lemma {:induction false} MaskBit(x: nat, i: nat)
    ensures And(x, Pow2(i)) != 0 <==> Bit(x, i)
    decreases i
  {
    if x == 0 {
      ZeroBit(i);
    } else if i == 0 {
      AndZero(x / 2);
    } else {
      assert Pow2(i) / 2 == Pow2(i - 1) && Pow2(i) % 2 == 0;
      MaskBit(x / 2, i - 1);
    }
  }

  lemma {:induction false} AndZero(x: nat)
    ensures And(x, 0) == 0
  {
    if x > 0 { AndZero(x / 2); }
  }

  // x & ((1 << w) - 1)
  lemma {:induction false} MaskLow(x: nat, w: nat)
    ensures And(x, Pow2(w) - 1) == Low(w, x)
    decreases w
  {
    if w == 0 {
      AndZero(x);
    } else {
      var h := Pow2(w - 1) - 1;
      assert Pow2(w) - 1 == 2 * h + 1;
      hide And, Low, Pow2;
      AndOdd(x, h);
      MaskLow(x / 2, w - 1);
      HalfLow(x, w);
    }
  }

  lemma AndOdd(x: nat, h: nat)
    ensures And(x, 2 * h + 1) == 2 * And(x / 2, h) + x % 2
  {
    Twice(h, 1);
  }

  // The or of a shifted word and one that fits below it is their sum.
  lemma {:induction false} OrIsSum(x: nat, n: nat, y: nat)
    requires y < Pow2(n)
    ensures Or(Shl(x, n), y) == Shl(x, n) + y
    decreases n
  {
    if n == 0 {
      OrNothing(x);
    } else {
      OrIsSum(x, n - 1, y / 2);
    }
  }

  lemma {:induction false} OrNothing(x: nat)
    ensures Or(x, 0) == x
  {
    if x > 0 { OrNothing(x / 2); }
  }

  // XOR2 of C: whether the two low bits of a shifted word differ.
  predicate Xor2(x: nat) { Bit(x, 0) != Bit(x, 1) }

  lemma Xor2Shr(x: nat, n: nat, k: nat)
    requires k == n + 1
    ensures Xor2(Shr(x, n)) <==> Bit(x, n) != Bit(x, k)
  {
    ShrBit(x, n, 0, n);
    ShrBit(x, n, 1, k);
  }

  lemma {:induction false} ShlBit(x: nat, n: nat, j: nat)
    ensures Bit(Shl(x, n), j) <==> j >= n && Bit(x, j - n)
    decreases n
  {
    if n > 0 && j > 0 { ShlBit(x, n - 1, j - 1); }
  }

  lemma {:induction false} SmallBit(x: nat, n: nat, j: nat)
    requires x < Pow2(n) && j >= n
    ensures !Bit(x, j)
    decreases j
  {
    if n == 0 { ZeroBit(j); } else { SmallBit(x / 2, n - 1, j - 1); }
  }

  lemma {:induction false} PowerBit(i: nat, j: nat)
    ensures Bit(Pow2(i), j) <==> i == j
    decreases j
  {
    if j == 0 { assert i > 0 ==> Pow2(i) == 2 * Pow2(i - 1); }
    else if i == 0 { ZeroBit(j - 1); }
    else {
      assert Pow2(i) / 2 == Pow2(i - 1);
      PowerBit(i - 1, j - 1);
    }
  }

  lemma {:induction false} OrBound(x: nat, y: nat, n: nat)
    requires x < Pow2(n) && y < Pow2(n)
    ensures Or(x, y) < Pow2(n)
    decreases n
  {
    if n > 0 { OrBound(x / 2, y / 2, n - 1); }
  }

  lemma {:induction false} BitMask(x: nat, i: nat)
    ensures And(x, Pow2(i)) == 0 || And(x, Pow2(i)) == Pow2(i)
    decreases i
  {
    if x != 0 {
      if i == 0 { AndZero(x / 2); }
      else {
        assert Pow2(i) / 2 == Pow2(i - 1) && Pow2(i) % 2 == 0;
        BitMask(x / 2, i - 1);
      }
    }
  }

  lemma LowOfSmall(w: nat, x: nat)
    requires x < Pow2(w)
    ensures Low(w, x) == x
  {
    Residue(x, Pow2(w), x, 0);
  }

  // x & ((1 << w) - 1), bit by bit.
  lemma MaskedBit(x: nat, w: nat, j: nat)
    ensures Bit(And(x, Pow2(w) - 1), j) <==> j < w && Bit(x, j)
  {
    MaskLow(x, w);
    if j < w { LowBit(w, x, j); } else { SmallBit(Low(w, x), w, j); }
  }

  // Words of n bits that agree in every bit are equal.
  lemma {:induction false} SameBits(n: nat, x: nat, y: nat)
    requires x < Pow2(n) && y < Pow2(n) && forall j: nat :: j < n ==> (Bit(x, j) <==> Bit(y, j))
    ensures x == y
    decreases n
  {
    if n > 0 {
      assert Bit(x, 0) <==> Bit(y, 0);
      forall j: nat | j < n - 1 ensures Bit(x / 2, j) <==> Bit(y / 2, j) {
        var i := j + 1;
        assert Bit(x, i) <==> Bit(y, i);
      }
      SameBits(n - 1, x / 2, y / 2);
    }
  }
}
