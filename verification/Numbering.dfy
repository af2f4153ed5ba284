// Names made of a prefix and a number by snprintf, which cuts off what the buffer does not hold.
module Numbering {
  import opened Common
  import opened Text

  // snprintf into a buffer of `size` bytes
  function Fitted(s: string, size: nat): string
    requires size >= 1
  {
    if |s| < size then s else s[..size - 1]
  }

  function Numbered(prefix: string, k: nat, size: nat): string
    requires size >= 1
  {
    Fitted(prefix + Decimal(k), size)
  }

  // The bytes left for the digits behind a prefix.
  function Space(prefix: string, size: nat): int { size - 1 - |prefix| }

  // Numbers below this one have room for all their digits.
  function Limit(prefix: string, size: nat): nat
    requires Space(prefix, size) >= 1
  {
    Power(10, Space(prefix, size))
  }

  lemma NumberedIsWhole(prefix: string, k: nat, size: nat)
    requires Space(prefix, size) >= 1 && k < Limit(prefix, size)
    ensures Numbered(prefix, k, size) == prefix + Decimal(k)
  {
    DigitsLength(k, 10, Space(prefix, size));
  }

  lemma NumberedInjective(prefix: string, m: nat, n: nat, size: nat)
    requires Space(prefix, size) >= 1 && m < Limit(prefix, size) && n < Limit(prefix, size)
    requires Numbered(prefix, m, size) == Numbered(prefix, n, size)
    ensures m == n
  {
    NumberedIsWhole(prefix, m, size);
    NumberedIsWhole(prefix, n, size);
    assert Decimal(m) == (prefix + Decimal(m))[|prefix|..];
    assert Decimal(n) == (prefix + Decimal(n))[|prefix|..];
    DigitsInjective(m, n, 10);
  }

  // A number of at least b^(k - 1) has at least k digits.
  lemma {:induction false} DigitsAtLeast(n: nat, b: nat, k: nat)
    requires 2 <= b <= 16 && k >= 1 && n >= Power(b, k - 1)
    ensures |Digits(n, b)| >= k
    decreases k
  {
    if k >= 2 {
      PowerPositive(b, k - 2);
      DivAtLeast(n, b, Power(b, k - 2));
      DigitsAtLeast(n / b, b, k - 1);
    }
  }

  lemma DivAtLeast(n: nat, b: nat, p: nat)
    requires b >= 2 && n >= b * p && p >= 1
    ensures n / b >= p && n >= b
  {
    var q := n / b;
    DivMod(n, b);
    Monotone(b, q + 1, p);
    Monotone(b, 1, p);
    NextMultiple(q, b);
  }

  lemma NextMultiple(q: nat, b: nat)
    ensures b * (q + 1) == q * b + b
  {
  }

  lemma {:induction false} PowerPositive(b: nat, k: nat)
    requires b >= 1
    ensures Power(b, k) >= 1
  {
    if k > 0 { PowerPositive(b, k - 1); }
  }

  // Behind a full buffer the last digit of a number is lost.
  lemma LastDigitIsCut(prefix: string, k: nat, size: nat)
    requires Space(prefix, size) >= 1 && k >= Limit(prefix, size)
    ensures k >= 10 && Numbered(prefix, k, size) == Numbered(prefix, k / 10, size)
  {
    var d := Space(prefix, size);
    PowerPositive(10, d - 1);
    DivAtLeast(k, 10, Power(10, d - 1));
    DigitsAtLeast(k / 10, 10, d);
    assert prefix + Decimal(k) == prefix + Decimal(k / 10) + [DigitChar(k % 10)];
  }

  // Every number is written like one whose digits all fit, and like no zero unless it is zero.
  lemma {:induction false} WrittenLike(prefix: string, k: nat, size: nat) returns (n: nat)
    requires Space(prefix, size) >= 1
    ensures n <= k && n < Limit(prefix, size) && (n == 0 <==> k == 0)
    ensures Numbered(prefix, n, size) == Numbered(prefix, k, size)
    decreases k
  {
    PowerPositive(10, Space(prefix, size));
    if k < Limit(prefix, size) {
      n := k;
    } else {
      LastDigitIsCut(prefix, k, size);
      n := WrittenLike(prefix, k / 10, size);
    }
  }

  // A prefix that fills the buffer hides the number.
  lemma NumberIsHidden(prefix: string, k: nat, size: nat)
    requires size >= 1 && Space(prefix, size) <= 0
    ensures Numbered(prefix, k, size) == prefix[..size - 1]
  {
    assert (prefix + Decimal(k))[..size - 1] == prefix[..size - 1];
  }
}
