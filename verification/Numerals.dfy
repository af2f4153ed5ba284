// What a printed number is, apart from how it is made: its digits, its value, its padding.
module Numerals {
  import opened Text

  const DIGITS := "0123456789abcdef"

  function PlaceOf(c: char): nat {
    if '0' <= c <= '9' then (c - '0') as nat else if 'a' <= c <= 'f' then (c - 'a') as nat + 10 else 16
  }

  // The number that a text of digits stands for.
  function Worth(s: string, b: nat): nat {
    if s == "" then 0 else Worth(s[..|s| - 1], b) * b + PlaceOf(s[|s| - 1])
  }

  // s is n in base b: lower-case digits, the first of them not zero unless it is the only one.
  predicate Numeral(s: string, n: nat, b: nat)
    requires 2 <= b <= 16
  {
    && s != "" && (forall i :: 0 <= i < |s| ==> s[i] in DIGITS[..b])
    && (|s| > 1 ==> s[0] != '0') && Worth(s, b) == n
  }

  // A number of either sign in base 10.
  predicate Integer(s: string, n: int) {
    if n < 0 then s != "" && s[0] == '-' && Numeral(s[1..], -n, 10) else Numeral(s, n, 10)
  }

  // n in base b behind as many c as fill the width.
  predicate Padded(s: string, n: nat, b: nat, width: nat, c: char)
    requires 2 <= b <= 16
  {
    exists k: nat :: k <= |s| && IsPadding(s, n, b, width, c, k)
  }

  predicate IsPadding(s: string, n: nat, b: nat, width: nat, c: char, k: nat)
    requires 2 <= b <= 16 && k <= |s|
  {
    (forall i :: 0 <= i < k ==> s[i] == c) && Numeral(s[k..], n, b)
    && (if |s| - k >= width then k == 0 else |s| == width)
  }

  lemma DigitIs(d: nat, b: nat)
    requires d < b <= 16
    ensures DigitChar(d) in DIGITS[..b] && PlaceOf(DigitChar(d)) == d && (DigitChar(d) == '0' <==> d == 0)
  {
    assert DIGITS[..b][d] == DigitChar(d);
  }

  // The digits printed are the numeral.
  lemma {:induction false} DigitsAreNumeral(n: nat, b: nat)
    requires 2 <= b <= 16
    ensures Numeral(Digits(n, b), n, b)
    decreases n
  {
    if n < b {
      OneDigit(n, b);
    } else {
      hide Numeral;
      var q, r := n / b, n % b;
      Quotient(n, b);
      DigitsAreNumeral(q, b);
      NumeralGrows(Digits(q, b), q, r, n, b);
    }
  }

  lemma OneDigit(d: nat, b: nat)
    requires 2 <= b <= 16 && d < b
    ensures Numeral([DigitChar(d)], d, b)
  {
    DigitIs(d, b);
    assert [DigitChar(d)][..0] == "";
  }

  lemma NumeralGrows(s: string, q: nat, r: nat, n: nat, b: nat)
    requires 2 <= b <= 16 && r < b && n == q * b + r && q > 0 && Numeral(s, q, b)
    ensures Numeral(s + [DigitChar(r)], n, b)
  {
    var t := s + [DigitChar(r)];
    DigitIs(r, b);
    assert t[..|t| - 1] == s && t[|t| - 1] == DigitChar(r);
    if |s| == 1 { assert Worth(s, b) == PlaceOf(s[0]) by { assert s[..0] == ""; } }
  }

  lemma PlaceBelow(c: char, b: nat)
    requires 2 <= b <= 16 && c in DIGITS[..b]
    ensures PlaceOf(c) < b && c == DIGITS[PlaceOf(c)]
  {
    var i :| 0 <= i < b && DIGITS[..b][i] == c;
    assert DIGITS[i] == DigitChar(i);
    DigitIs(i, b);
  }

  // There is one numeral for each number.
  lemma {:induction false} NumeralIsUnique(s: string, t: string, n: nat, b: nat)
    requires 2 <= b <= 16 && Numeral(s, n, b) && Numeral(t, n, b)
    ensures s == t
    decreases |s|
  {
    LastPlace(s, n, b);
    LastPlace(t, n, b);
    if n >= b {
      NumeralIsUnique(s[..|s| - 1], t[..|t| - 1], n / b, b);
      assert s == s[..|s| - 1] + [s[|s| - 1]] && t == t[..|t| - 1] + [t[|t| - 1]];
    }
  }

  lemma LastPlace(s: string, n: nat, b: nat)
    requires 2 <= b <= 16 && Numeral(s, n, b)
    ensures s[|s| - 1] == DIGITS[n % b] && (n < b <==> |s| == 1)
    ensures n >= b ==> Numeral(s[..|s| - 1], n / b, b)
  {
    var init, last := s[..|s| - 1], s[|s| - 1];
    PlaceBelow(last, b);
    Split(Worth(init, b), PlaceOf(last), n, b);
    forall i | 0 <= i < |init| ensures init[i] in DIGITS[..b] { assert init[i] == s[i]; }
    if |s| > 1 { FirstCounts(init, b); }
  }

  lemma Split(q: nat, r: nat, n: nat, b: nat)
    requires b > 0 && r < b && n == q * b + r
    ensures n / b == q && n % b == r && (n < b <==> q == 0)
  {
    var d := n / b - q;
    assert n / b * b + n % b == n;
    assert d * b == n / b * b - q * b;
    NoMultiple(d, b);
    if q > 0 { Product(q, b); }
  }

  lemma NoMultiple(d: int, b: int)
    requires b > 0 && -b < d * b < b
    ensures d == 0
  {
  }

  lemma Product(a: nat, b: nat)
    requires a > 0
    ensures a * b >= b
  {
  }

  // A numeral with a first digit other than zero is worth something.
  lemma {:induction false} FirstCounts(s: string, b: nat)
    requires 2 <= b <= 16 && s != "" && s[0] != '0' && forall i :: 0 <= i < |s| ==> s[i] in DIGITS[..b]
    ensures Worth(s, b) > 0
    decreases |s|
  {
    if |s| == 1 {
      PlaceBelow(s[0], b);
      assert s[..0] == "";
    } else {
      var init := s[..|s| - 1];
      forall i | 0 <= i < |init| ensures init[i] in DIGITS[..b] { assert init[i] == s[i]; }
      FirstCounts(init, b);
      Product(Worth(init, b), b);
    }
  }

  // -------------------------------------------------- the conversions of printf

  // "%d" and "%ld"
  lemma PrintIntIs(n: int)
    ensures Integer(PrintInt(n), n)
  {
    var m: nat := if n < 0 then -n else n;
    DigitsAreNumeral(m, 10);
    assert n < 0 ==> PrintInt(n)[1..] == Decimal(m);
  }

  // "%04x" (c is '0') and "%4x", "%2x" (c is ' ')
  lemma PrintHexIs(n: nat, width: nat, c: char)
    ensures Padded(PrintHex(n, width, c), n, 16, width, c)
  {
    var d, s := Digits(n, 16), PrintHex(n, width, c);
    var k: nat := if |d| >= width then 0 else width - |d|;
    DigitsAreNumeral(n, 16);
    assert s[k..] == d;
    assert IsPadding(s, n, 16, width, c, k);
  }

  // A word of at most four digits, padded with zeros to four: exactly four digits.
  lemma FourDigits(s: string, n: nat)
    requires n < 0x1_0000 && Padded(s, n, 16, 4, '0')
    ensures |s| == 4 && (forall i :: 0 <= i < 4 ==> s[i] in DIGITS) && Worth(s, 16) == n
  {
    hide Worth, Digits, PlaceOf, Power;
    var k: nat :| k <= |s| && IsPadding(s, n, 16, 4, '0', k);
    var d := s[k..];
    DigitsAreNumeral(n, 16);
    NumeralIsUnique(d, Digits(n, 16), n, 16);
    FourPlaces();
    DigitsLength(n, 16, 4);
    assert s == s[..k] + d;
    ZerosAreWorthless(s[..k], d, 16);
    forall i | 0 <= i < 4 ensures s[i] in DIGITS {
      if i < k { assert s[i] == DIGITS[0]; } else { assert s[i] == d[i - k] && d[i - k] in DIGITS[..16]; }
    }
  }

  lemma FourPlaces()
    ensures Power(16, 4) == 0x1_0000
  {
    assert Power(16, 2) == 0x100 && Power(16, 3) == 0x1000;
  }

  lemma {:induction false} ZerosAreWorthless(z: string, s: string, b: nat)
    requires forall i :: 0 <= i < |z| ==> z[i] == '0'
    ensures Worth(z + s, b) == Worth(s, b)
    decreases |s|, |z|
  {
    if s != "" {
      assert (z + s)[..|z + s| - 1] == z + s[..|s| - 1];
      ZerosAreWorthless(z, s[..|s| - 1], b);
    } else if z != "" {
      assert z + s == z && z[..|z| - 1] + "" == z[..|z| - 1];
      ZerosAreWorthless(z[..|z| - 1], s, b);
    } else {
      assert z + s == s;
    }
  }

  // ----------------------------------------------- the conversions of strto*

  // The place of a digit in either case; 16 for any other character.
  function CasePlace(c: char): nat { if 'A' <= c <= 'F' then 10 + (c - 'A') as nat else PlaceOf(c) }

  function CaseWorth(s: string, b: nat): nat {
    if s == "" then 0 else CaseWorth(s[..|s| - 1], b) * b + CasePlace(s[|s| - 1])
  }

  predicate Places(s: string, b: nat) { forall i :: 0 <= i < |s| ==> CasePlace(s[i]) < b }

  lemma DigitValueIs(c: char)
    ensures DigitValue(c) == CasePlace(c)
  {
  }

  // A run of digits is read as what it is worth, up to any other text.
  lemma {:induction false} RunIsRead(s: string, rest: string, b: nat)
    requires 2 <= b <= 16 && Places(s, b) && (rest == "" || CasePlace(rest[0]) >= b)
    ensures Value(s + rest, b, 0) == CaseWorth(s, b)
    decreases |s|
  {
    if s == "" {
      assert s + rest == rest;
      if rest != "" { DigitValueIs(rest[0]); }
    } else {
      var init, c := s[..|s| - 1], s[|s| - 1];
      DigitValueIs(c);
      forall i | 0 <= i < |init| ensures DigitValue(init[i]) < b { assert init[i] == s[i]; DigitValueIs(init[i]); }
      RunIsRead(init, "", b);
      assert init + "" == init && s + rest == init + ([c] + rest);
      ValueConcat(init, [c] + rest, b, 0);
      assert ([c] + rest)[1..] == rest;
      if rest != "" { DigitValueIs(rest[0]); }
    }
  }

  // White space of the C locale.
  predicate AllBlank(s: string) {
    forall i :: 0 <= i < |s| ==> s[i] in [' ', '\t', '\n', '\r', 11 as char, 12 as char]
  }

  // White space, and a sign in front of a number, taken apart.
  lemma SignTaken(blanks: string, sign: string, body: string, s: string)
    requires AllBlank(blanks) && sign in ["", "+", "-"] && s == blanks + (sign + body)
    requires body != "" && !IsSpace(body[0]) && body[0] != '-' && body[0] != '+'
    ensures var t := SkipSpace(s);
            t != "" && (if sign == "" then t == body && t[0] != '-' && t[0] != '+'
                        else t[0] == sign[0] && t[1..] == body)
  {
    var t := sign + body;
    assert sign == "" ==> t == body;
    SkipSpaceIs(blanks, t);
  }

  // atoi: white space, a sign, digits, and any other text.
  lemma AtoiIs(blanks: string, sign: string, s: string, rest: string)
    requires AllBlank(blanks) && sign in ["", "+", "-"] && s != "" && Places(s, 10)
    requires rest == "" || CasePlace(rest[0]) >= 10
    ensures ParseInt(blanks + sign + s + rest) == if sign == "-" then 0 - CaseWorth(s, 10) else CaseWorth(s, 10)
  {
    hide Value, CaseWorth, SkipSpace, IsSpace;
    var body := s + rest;
    assert blanks + sign + s + rest == blanks + (sign + body);
    DigitValueIs(s[0]);
    DigitIsNoSpace(s[0]);
    RunIsRead(s, rest, 10);
    SignTaken(blanks, sign, body, blanks + sign + s + rest);
  }

  // strtoul and strtol in base 16: the same with "0x" or "0X" left out in front of digits.
  lemma StrtolIs(blanks: string, sign: string, prefix: string, s: string, rest: string)
    requires AllBlank(blanks) && sign in ["", "+", "-"] && prefix in ["", "0x", "0X"] && s != "" && Places(s, 16)
    requires rest == "" || (CasePlace(rest[0]) >= 16 && rest[0] !in ['x', 'X'])
    ensures ParseHex(blanks + sign + prefix + s + rest)
         == if sign == "-" then 0 - CaseWorth(s, 16) else CaseWorth(s, 16)
  {
    hide HexBody, CaseWorth, SkipSpace, Places;
    var body := prefix + s + rest;
    assert blanks + sign + prefix + s + rest == blanks + (sign + body);
    FirstOfHex(prefix, s, rest, body);
    HexBodyOf(prefix, s, rest, body);
    SignTaken(blanks, sign, body, blanks + sign + prefix + s + rest);
  }

  lemma FirstOfHex(prefix: string, s: string, rest: string, body: string)
    requires prefix in ["", "0x", "0X"] && s != "" && Places(s, 16) && body == prefix + s + rest
    ensures body != "" && !IsSpace(body[0]) && body[0] != '-' && body[0] != '+'
  {
    DigitValueIs(s[0]);
    DigitIsNoSpace(s[0]);
    if prefix != "" { assert body[0] == '0'; } else { assert body[0] == s[0]; }
  }

  lemma HexBodyOf(prefix: string, s: string, rest: string, body: string)
    requires prefix in ["", "0x", "0X"] && s != "" && Places(s, 16) && body == prefix + s + rest
    requires rest == "" || (CasePlace(rest[0]) >= 16 && rest[0] !in ['x', 'X'])
    ensures HexBody(body) == CaseWorth(s, 16)
  {
    RunIsRead(s, rest, 16);
    if prefix == "" {
      assert body == s + rest;
      if |body| >= 3 {
        assert body[1] == if |s| > 1 then s[1] else rest[0];
        assert CasePlace('x') == 16 && CasePlace('X') == 16;
      }
    } else {
      assert body[2..] == s + rest && body[2] == s[0] && body[0] == prefix[0] && body[1] == prefix[1];
      DigitValueIs(s[0]);
    }
  }
}
