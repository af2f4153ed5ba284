// Numbers as text: the printf and strto* conversions the programs use, and their
// round trips.
module Text {
  import opened Common

  // ----------------------------------------------------------------- digits

  function DigitChar(d: nat): char
    requires d < 16
  {
    if d < 10 then '0' + d as char else 'a' + (d - 10) as char
  }

  // The value of a digit character, or 16 for any other character.
  function DigitValue(c: char): (d: nat)
    ensures d <= 16
  {
    if '0' <= c <= '9' then (c - '0') as nat
    else if 'a' <= c <= 'f' then (c - 'a') as nat + 10
    else if 'A' <= c <= 'F' then (c - 'A') as nat + 10
    else 16
  }

  // n in base b, without leading zeros ("0" for zero).
  function Digits(n: nat, b: nat): (s: string)
    requires 2 <= b <= 16
    ensures |s| > 0
    decreases n
  {
    if n < b then [DigitChar(n)] else Digits(n / b, b) + [DigitChar(n % b)]
  }

  // The value of the longest prefix of digits, after `acc`.
  function Value(s: string, b: nat, acc: nat): nat
    requires 2 <= b <= 16
    decreases |s|
  {
    if s == [] || DigitValue(s[0]) >= b then acc
    else Value(s[1..], b, acc * b + DigitValue(s[0]))
  }

  predicate AllDigits(s: string, b: nat) {
    forall i :: 0 <= i < |s| ==> DigitValue(s[i]) < b
  }

  // A text at which a number ends.
  predicate Ends(s: string, b: nat) {
    s == [] || DigitValue(s[0]) >= b
  }

  lemma DigitRoundTrip(d: nat)
    requires d < 16
    ensures DigitValue(DigitChar(d)) == d
  {
  }

  lemma AppendDigit(s: string, b: nat, r: nat)
    requires b <= 16 && r < b && AllDigits(s, b)
    ensures AllDigits(s + [DigitChar(r)], b)
  {
    DigitRoundTrip(r);
  }

  lemma {:induction false} DigitsAreDigits(n: nat, b: nat)
    requires 2 <= b <= 16
    ensures AllDigits(Digits(n, b), b)
    decreases n
  {
    if n < b {
      DigitRoundTrip(n);
    } else {
      var q, r := n / b, n % b;
      Quotient(n, b);
      DigitsAreDigits(q, b);
      AppendDigit(Digits(q, b), b, r);
    }
  }

  lemma {:induction false} ValueConcat(s: string, t: string, b: nat, acc: nat)
    requires 2 <= b <= 16 && AllDigits(s, b)
    ensures Value(s + t, b, acc) == Value(t, b, Value(s, b, acc))
    decreases |s|
  {
    if s == [] {
      assert s + t == t;
    } else {
      assert (s + t)[1..] == s[1..] + t;
      ValueConcat(s[1..], t, b, acc * b + DigitValue(s[0]));
    }
  }

  lemma LastDigit(q: nat, r: nat, b: nat, rest: string)
    requires 2 <= b <= 16 && r < b && Ends(rest, b)
    ensures Value([DigitChar(r)] + rest, b, q) == q * b + r
  {
    DigitRoundTrip(r);
    assert ([DigitChar(r)] + rest)[1..] == rest;
  }

  lemma Quotient(n: nat, b: nat)
    requires n >= b >= 2
    ensures n / b < n && n / b * b + n % b == n
  {
  }

  // Reading back what was printed, whatever follows it.
  lemma {:induction false} ValueOfDigits(n: nat, b: nat, rest: string)
    requires 2 <= b <= 16 && Ends(rest, b)
    ensures Value(Digits(n, b) + rest, b, 0) == n
    decreases n
  {
    if n < b {
      LastDigit(0, n, b, rest);
    } else {
      var q, r := n / b, n % b;
      Quotient(n, b);
      var high, low := Digits(q, b), [DigitChar(r)] + rest;
      assert Digits(n, b) + rest == high + low;
      DigitsAreDigits(q, b);
      ValueConcat(high, low, b, 0);
      ValueOfDigits(q, b, []);
      assert high + [] == high;
      LastDigit(q, r, b, rest);
    }
  }

  // Different numbers print differently.
  lemma DigitsInjective(m: nat, n: nat, b: nat)
    requires 2 <= b <= 16 && Digits(m, b) == Digits(n, b)
    ensures m == n
  {
    ValueOfDigits(m, b, []);
    ValueOfDigits(n, b, []);
  }

  function Power(b: nat, k: nat): nat {
    if k == 0 then 1 else b * Power(b, k - 1)
  }

  // A number below b^k has at most k digits (k at least 1).
  lemma {:induction false} DigitsLength(n: nat, b: nat, k: nat)
    requires 2 <= b <= 16 && k >= 1 && n < Power(b, k)
    ensures |Digits(n, b)| <= k
    decreases k
  {
    if n >= b {
      assert k > 1 by { assert Power(b, 1) == b * Power(b, 0); }
      DivBelow(n, b, Power(b, k - 1));
      DigitsLength(n / b, b, k - 1);
    }
  }

  lemma DivBelow(n: nat, b: nat, p: nat)
    requires b > 0 && n < b * p
    ensures n / b < p
  {
    DivMod(n, b);
    Monotone(b, p, n / b);
  }

  lemma Monotone(b: nat, p: nat, q: nat)
    ensures p <= q ==> b * p <= q * b
  {
  }

  function Decimal(n: nat): string { Digits(n, 10) }

  // ------------------------------------------------- conversions of C

  predicate IsSpace(c: char) {
    c == ' ' || c == '\t' || c == '\n' || c == '\r' || c == 11 as char || c == 12 as char
  }

  function SkipSpace(s: string): string {
    if s != [] && IsSpace(s[0]) then SkipSpace(s[1..]) else s
  }

  // "%d" and "%ld"
  function PrintInt(n: int): string {
    if n < 0 then "-" + Decimal(-n) else Decimal(n)
  }

  // atoi and atol, without the range check.
  function ParseInt(s: string): int {
    var t := SkipSpace(s);
    if t != [] && t[0] == '-' then 0 - (Value(t[1..], 10, 0) as int)
    else if t != [] && t[0] == '+' then Value(t[1..], 10, 0)
    else Value(t, 10, 0)
  }

  function Repeat(c: char, n: nat): string { seq(n, _ => c) }

  function PadLeft(s: string, width: nat, c: char): string {
    if |s| >= width then s else Repeat(c, width - |s|) + s
  }

  // "%04x" (c is '0') and "%4x", "%2x" (c is ' ')
  function PrintHex(n: nat, width: nat, c: char): string {
    PadLeft(Digits(n, 16), width, c)
  }

  // The digits of a number in base 16, after an optional "0x".
  function HexBody(t: string): nat {
    if |t| >= 3 && t[0] == '0' && (t[1] == 'x' || t[1] == 'X') && DigitValue(t[2]) < 16
    then Value(t[2..], 16, 0) else Value(t, 16, 0)
  }

  // strtoul and strtol with base 16, without the range check.
  function ParseHex(s: string): int {
    var t := SkipSpace(s);
    if t != [] && t[0] == '-' then 0 - (HexBody(t[1..]) as int)
    else if t != [] && t[0] == '+' then HexBody(t[1..])
    else HexBody(t)
  }

  lemma {:induction false} SkipSpaceIs(s: string, t: string)
    requires (forall i :: 0 <= i < |s| ==> IsSpace(s[i])) && (t == [] || !IsSpace(t[0]))
    ensures SkipSpace(s + t) == t
  {
    if s == [] {
      assert s + t == t;
    } else {
      assert (s + t)[1..] == s[1..] + t;
      SkipSpaceIs(s[1..], t);
    }
  }

  lemma DigitIsNoSpace(c: char)
    requires DigitValue(c) < 16
    ensures !IsSpace(c) && c != '-' && c != '+'
  {
  }

  lemma FirstDigit(n: nat, b: nat)
    requires 2 <= b <= 16
    ensures var c := Digits(n, b)[0]; !IsSpace(c) && c != '-' && c != '+'
  {
    DigitsAreDigits(n, b);
    DigitIsNoSpace(Digits(n, b)[0]);
  }

  // atoi undoes "%d", whatever text that is no digit follows.
  lemma IntRoundTrip(n: int, rest: string)
    requires Ends(rest, 10)
    ensures ParseInt(PrintInt(n) + rest) == n
  {
    var m: nat := if n < 0 then -n else n;
    var t := Decimal(m) + rest;
    FirstDigit(m, 10);
    ValueOfDigits(m, 10, rest);
    if n < 0 {
      var s := "-" + Decimal(m) + rest;
      assert s[0] == '-' && s[1..] == t;
    } else {
      assert t[0] == Decimal(m)[0];
    }
  }

  lemma {:induction false} LeadingZeros(k: nat, s: string, b: nat)
    requires 2 <= b <= 16
    ensures Value(Repeat('0', k) + s, b, 0) == Value(s, b, 0)
  {
    if k == 0 {
      assert Repeat('0', k) + s == s;
    } else {
      assert (Repeat('0', k) + s)[1..] == Repeat('0', k - 1) + s;
      LeadingZeros(k - 1, s, b);
    }
  }

  lemma HexBodyIs(t: string)
    requires AllDigits(t, 16)
    ensures HexBody(t) == Value(t, 16, 0)
  {
    assert DigitValue('x') == 16 && DigitValue('X') == 16;
    assert |t| >= 2 ==> DigitValue(t[1]) < 16;
  }

  // The digits of n behind k zeros.
  lemma ZerosAndDigits(k: nat, n: nat)
    ensures var t := Repeat('0', k) + Digits(n, 16);
            t != [] && !IsSpace(t[0]) && t[0] != '-' && t[0] != '+' && HexBody(t) == n
  {
    var d := Digits(n, 16);
    var t := Repeat('0', k) + d;
    DigitsAreDigits(n, 16);
    assert DigitValue('0') == 0;
    assert AllDigits(t, 16);
    HexBodyIs(t);
    ValueOfDigits(n, 16, []);
    assert d + [] == d;
    LeadingZeros(k, d, 16);
    DigitIsNoSpace(t[0]);
  }

  // strtoul undoes "%0*x" and "%*x".
  lemma HexRoundTrip(n: nat, width: nat, c: char)
    requires c == '0' || c == ' '
    ensures ParseHex(PrintHex(n, width, c)) == n
  {
    var d := Digits(n, 16);
    var k: nat := if |d| < width then width - |d| else 0;
    if c == ' ' {
      ZerosAndDigits(0, n);
      assert Repeat('0', 0) + d == d;
      SkipSpaceIs(Repeat(' ', k), d);
      assert PrintHex(n, width, c) == Repeat(' ', k) + d;
    } else {
      ZerosAndDigits(k, n);
      assert PrintHex(n, width, c) == Repeat('0', k) + d;
    }
  }
}
