// The portable branches of the emulator's 32-bit signed multiplication and unsigned division.
module MulDiv {
  import opened Bits
  import opened Common
  import opened X86
  import opened AddSub

  // ------------------------------------------------------------- multiplication

  // A register operation of C on unsigned words.
  function Mul32(x: nat, y: nat): nat { Low(32, x * y) }

  // The value of a high and a low word.
  function Pair(hi: nat, lo: nat): nat { 0x1_0000_0000 * hi + lo }

  function Add32(x: nat, y: nat): nat { Low(32, x + y) }

  // imul_long_direct without a 64-bit type: from the 16-bit halves of the magnitudes.
  method ImulLongDirect(d0: nat, s0: nat) returns (resLo: nat, resHi: nat)
    requires d0 < Pow2(32) && s0 < Pow2(32)
    ensures resLo < Pow2(32) && resHi < Pow2(32)
    ensures Pair(resHi, resLo) == Low(64, Signed(32, d0) * Signed(32, s0))
  {
    hide And, Shr, Signed, Low, Not, Pow2;
    var d, s := d0, s0;
    var dSign, sSign := And(d, 0x8000_0000), And(s, 0x8000_0000);
    SignBit(d);
    SignBit(s);
    if dSign != 0 { d := Low(32, 0 - (d as int)); }
    if sSign != 0 { s := Low(32, 0 - (s as int)); }
    Magnitude(d0, d);
    Magnitude(s0, s);
    resLo, resHi := MulMagnitudes(d, s);
    ProductOfSigned(Signed(32, d0), Signed(32, s0), d, s);
    assert dSign != sSign <==> (Signed(32, d0) < 0) != (Signed(32, s0) < 0) by { SignsDiffer(d0, s0, dSign, sSign); }
    if dSign != sSign {
      resLo, resHi := Negate(resLo, resHi, d * s);
    } else {
      LowOfSmall(64, d * s);
    }
  }

  // The product of two magnitudes of at most 2^31, whose cross terms fit a word.
  method MulMagnitudes(d: nat, s: nat) returns (resLo: nat, resHi: nat)
    requires d <= 0x8000_0000 && s <= 0x8000_0000
    ensures resLo < Pow2(32) && resHi < Pow2(32) && Pair(resHi, resLo) == d * s
    ensures d * s < Pow2(64)
  {
    hide And, Or, Shr, Shl, Low, Pow2, Mul32, Add32;
    var dLo, dHi := And(d, 0xFFFF), Shr(d, 16);
    var sLo, sHi := And(s, 0xFFFF), Shr(s, 16);
    Halves(d, dLo, dHi);
    Halves(s, sLo, sHi);
    WordsDoNotOverflow(dLo, dHi, sLo, sHi);
    var rloLo := Mul32(dLo, sLo);
    var carried := Shr(rloLo, 16);
    Halves(rloLo, And(rloLo, 0xFFFF), carried);
    CrossTermsFit(dLo, dHi, sLo, sHi, carried);
    var rloHi := Add32(Add32(Mul32(dHi, sLo), Mul32(dLo, sHi)), carried);
    Halves(rloHi, And(rloHi, 0xFFFF), Shr(rloHi, 16));
    HighWordFits(dHi, sHi, Shr(rloHi, 16));
    var rhiLo := Add32(Mul32(dHi, sHi), Shr(rloHi, 16));
    Rejoin(rloHi, And(rloHi, 0xFFFF), Shr(rloHi, 16), And(rloLo, 0xFFFF));
    resLo := Or(Low(32, Shl(rloHi, 16)), And(rloLo, 0xFFFF));
    resHi := rhiLo;
    SplitProduct(d, s, dLo, dHi, sLo, sHi);
    Pow2Values();
    SmallProduct(d, s);
  }

  // The two's complement of a double word, one word at a time.
  method Negate(lo: nat, hi: nat, ghost p: nat) returns (resLo: nat, resHi: nat)
    requires lo < Pow2(32) && hi < Pow2(32) && Pair(hi, lo) == p
    ensures resLo < Pow2(32) && resHi < Pow2(32) && Pair(resHi, resLo) == Low(64, 0 - p)
  {
    hide And, Shr, Low, Pow2;
    Pow2Values();
    var d := Not(32, lo);
    Halves(d, And(d, 0xFFFF), Shr(d, 16));
    var low := And(d, 0xFFFF) + 1;
    Halves(low, And(low, 0xFFFF), Shr(low, 16));
    var s := Shr(low, 16) + Shr(d, 16);
    Halves(s, And(s, 0xFFFF), Shr(s, 16));
    resLo := Low(32, Not(32, lo) + 1);
    resHi := Low(32, Not(32, hi) + Shr(s, 16));
    NegatedWords(lo, hi, Shr(s, 16), resLo, resHi, p);
  }

  lemma SignBit(x: nat)
    requires x < Pow2(32)
    ensures And(x, 0x8000_0000) != 0 <==> x >= 0x8000_0000
    ensures And(x, 0x8000_0000) == 0 || And(x, 0x8000_0000) == 0x8000_0000
  {
    hide And, Bit;
    Pow2Values();
    MaskBit(x, 31);
    TopBit(x, 31);
    BitMask(x, 31);
  }

  lemma SignsDiffer(d: nat, s: nat, dSign: nat, sSign: nat)
    requires d < Pow2(32) && s < Pow2(32) && dSign == And(d, 0x8000_0000) && sSign == And(s, 0x8000_0000)
    ensures dSign != sSign <==> (Signed(32, d) < 0) != (Signed(32, s) < 0)
  {
    hide And;
    Pow2Values();
    SignBit(d);
    SignBit(s);
  }

  lemma Magnitude(x: nat, m: nat)
    requires x < Pow2(32) && m == if x >= 0x8000_0000 then Low(32, 0 - x) else x
    ensures m <= 0x8000_0000 && Signed(32, x) == if x >= 0x8000_0000 then 0 - m else m
  {
    Pow2Values();
    if x >= 0x8000_0000 { Residue(0 - x, Pow2(32), Pow2(32) - x, -1); }
  }

  lemma Halves(x: nat, lo: nat, hi: nat)
    requires lo == And(x, 0xFFFF) && hi == Shr(x, 16)
    ensures x == 0x1_0000 * hi + lo && lo < 0x1_0000
  {
    hide And, Shr;
    Pow2Values();
    MaskLow(x, 16);
    ShrIsQuotient(x, 16);
  }

  lemma Fits(x: nat)
    ensures x < 0x1_0000_0000 ==> Low(32, x) == x
  {
    Pow2Values();
    if x < 0x1_0000_0000 { LowOfSmall(32, x); }
  }

  lemma ProductBound(a: nat, b: nat, m: nat, n: nat)
    requires a <= m && b <= n
    ensures 0 <= a * b <= m * n
  {
    assert 0 <= a * b <= m * b;
    assert m * b <= m * n;
  }

  // The cross terms of magnitudes of at most 2^31 leave room for the carry.
  lemma CrossTerms(dLo: nat, dHi: nat, sLo: nat, sHi: nat)
    requires dLo < 0x1_0000 && sLo < 0x1_0000 && dHi <= 0x8000 && sHi <= 0x8000
    ensures 0 <= dLo * sLo <= 0xFFFE_0001 && 0 <= dHi * sHi <= 0x4000_0000
    ensures 0 <= dHi * sLo <= 0x7FFF_8000 && 0 <= dLo * sHi <= 0x7FFF_8000
  {
    ProductBound(dLo, sLo, 0xFFFF, 0xFFFF);
    ProductBound(dHi, sLo, 0x8000, 0xFFFF);
    ProductBound(dLo, sHi, 0xFFFF, 0x8000);
    ProductBound(dHi, sHi, 0x8000, 0x8000);
  }

  lemma Mul32Fits(x: nat, y: nat, m: nat, n: nat)
    requires x <= m && y <= n && m * n < 0x1_0000_0000
    ensures Mul32(x, y) == x * y
  {
    hide Low;
    ProductBound(x, y, m, n);
    Fits(x * y);
  }

  lemma WordsDoNotOverflow(dLo: nat, dHi: nat, sLo: nat, sHi: nat)
    requires dLo < 0x1_0000 && sLo < 0x1_0000 && dHi <= 0x8000 && sHi <= 0x8000
    ensures Mul32(dLo, sLo) == dLo * sLo
    ensures Mul32(dHi, sLo) == dHi * sLo && Mul32(dLo, sHi) == dLo * sHi && Mul32(dHi, sHi) == dHi * sHi
  {
    hide Mul32;
    Mul32Fits(dLo, sLo, 0xFFFF, 0xFFFF);
    Mul32Fits(dHi, sLo, 0x8000, 0xFFFF);
    Mul32Fits(dLo, sHi, 0xFFFF, 0x8000);
    Mul32Fits(dHi, sHi, 0x8000, 0x8000);
  }

  lemma CrossTermsFit(dLo: nat, dHi: nat, sLo: nat, sHi: nat, carried: nat)
    requires dLo < 0x1_0000 && sLo < 0x1_0000 && dHi <= 0x8000 && sHi <= 0x8000 && carried < 0x1_0000
    ensures var sum := dHi * sLo + dLo * sHi + carried;
            Add32(Add32(dHi * sLo, dLo * sHi), carried) == sum < 0x1_0000_0000
  {
    hide Add32;
    CrossTerms(dLo, dHi, sLo, sHi);
    SumFits(dHi * sLo, dLo * sHi, carried);
  }

  lemma AddFits(x: nat, y: nat)
    requires x + y < 0x1_0000_0000
    ensures Add32(x, y) == x + y
  {
    hide Low;
    Fits(x + y);
  }

  lemma SumFits(p: nat, q: nat, carried: nat)
    requires p <= 0x7FFF_8000 && q <= 0x7FFF_8000 && carried < 0x1_0000
    ensures Add32(Add32(p, q), carried) == p + q + carried < 0x1_0000_0000
  {
    hide Add32;
    AddFits(p, q);
    AddFits(p + q, carried);
  }

  lemma HighWordFits(dHi: nat, sHi: nat, carried: nat)
    requires dHi <= 0x8000 && sHi <= 0x8000 && carried < 0x1_0000
    ensures Add32(dHi * sHi, carried) == dHi * sHi + carried < 0x1_0000_0000
  {
    hide Add32;
    ProductBound(dHi, sHi, 0x8000, 0x8000);
    AddFits(dHi * sHi, carried);
  }

  lemma SplitProduct(d: nat, s: nat, dLo: nat, dHi: nat, sLo: nat, sHi: nat)
    requires d == 0x1_0000 * dHi + dLo && s == 0x1_0000 * sHi + sLo
    ensures d * s == 0x1_0000_0000 * (dHi * sHi) + 0x1_0000 * (dHi * sLo + dLo * sHi) + dLo * sLo
  {
    var h, k := 0x1_0000 * dHi, 0x1_0000 * sHi;
    assert d * s == (h + dLo) * s == h * s + dLo * s;
    assert h * s == h * k + h * sLo;
    assert dLo * s == dLo * k + dLo * sLo;
    Factor(dHi, sHi);
    Factors(dHi, sLo);
    Factors(sHi, dLo);
  }

  lemma Factor(a: int, b: int)
    ensures (0x1_0000 * a) * (0x1_0000 * b) == 0x1_0000_0000 * (a * b)
  {
    var c := 0x1_0000 * b;
    assert (0x1_0000 * a) * c == 0x1_0000 * (a * c);
    assert a * c == 0x1_0000 * (a * b);
  }

  lemma Factors(a: int, b: int)
    ensures (0x1_0000 * a) * b == 0x1_0000 * (a * b)
  {
  }

  lemma SmallProduct(d: nat, s: nat)
    requires d <= 0x8000_0000 && s <= 0x8000_0000
    ensures d * s < Pow2(64)
  {
    ProductBound(d, s, 0x8000_0000, 0x8000_0000);
    Pow2Values();
    Pow2Sum(32, 32, 64);
  }

  // (x << 16) | y in a word keeps the low half of x above y.
  lemma Rejoin(x: nat, lo: nat, hi: nat, y: nat)
    requires x < 0x1_0000_0000 && x == 0x1_0000 * hi + lo && lo < 0x1_0000 && y < 0x1_0000
    ensures Or(Low(32, Shl(x, 16)), y) == 0x1_0000 * lo + y
  {
    hide Or, Shl;
    Pow2Values();
    ShlIsProduct(x, 16);
    ShlIsProduct(lo, 16);
    Residue(0x1_0000 * x, 0x1_0000_0000, 0x1_0000 * lo, hi);
    OrIsSum(lo, 16, y);
  }

  lemma NegatedWords(lo: nat, hi: nat, carry: nat, resLo: nat, resHi: nat, p: nat)
    requires lo < Pow2(32) && hi < Pow2(32) && Pair(hi, lo) == p
    requires carry == if lo == 0 then 1 else 0
    requires resLo == Low(32, Not(32, lo) + 1) && resHi == Low(32, Not(32, hi) + carry)
    ensures Pair(resHi, resLo) == Low(64, 0 - p)
  {
    hide Not, Low, Pow2;
    Pow2Values();
    assert Pow2(64) == 0x1_0000_0000_0000_0000 by { Pow2Sum(32, 32, 64); }
    NotIs(lo);
    NotIs(hi);
    NegatedIs(32, Not(32, lo) + 1, lo);
    NegatedIs(32, Not(32, hi) + carry, if lo == 0 then hi else hi + 1);
    NegatedIs(64, 0 - p, p);
  }

  // The residue of -p in a word of n bits, also if it is given with one turn more.
  lemma NegatedIs(n: nat, x: int, p: nat)
    requires p <= Pow2(n) && (x == 0 - p || x == Pow2(n) - p)
    ensures Low(n, x) == if p == 0 || p == Pow2(n) then 0 else Pow2(n) - p
  {
    hide Pow2;
    var b := Pow2(n);
    var q := (if x == 0 - p then 0 else 1) - if p == 0 then 0 else 1;
    Residue(x, b, if p == 0 || p == b then 0 else b - p, q);
  }

  lemma NotIs(x: nat)
    requires x < Pow2(32)
    ensures Not(32, x) == 0xFFFF_FFFF - x
  {
    Pow2Values();
  }

  lemma ProductOfSigned(a: int, b: int, m: nat, n: nat)
    requires (a == m || a == 0 - m) && (b == n || b == 0 - n) && (a < 0 ==> a == 0 - m) && (b < 0 ==> b == 0 - n)
    ensures a * b == if (a < 0) != (b < 0) then 0 - m * n else m * n
  {
  }

  // ------------------------------------------------------------------ division

  datatype Division = DivideError | Divided(eax: nat, edx: nat)

  // The DIV entry of the SDM: an error for a zero divisor or a quotient over 32 bits.
  function Sdm(dividend: nat, s: nat): Division {
    if s == 0 || dividend / s >= Pow2(32) then DivideError else Divided(dividend / s, dividend % s)
  }

  // The branch with a 64-bit type; its test for overflow takes abs of an int and never holds.
  function Wide(dividend: nat, s: nat): Division {
    if s == 0 then DivideError else Divided(Low(32, dividend / s), dividend % s)
  }

  // What the portable loop computes: its 33 steps give a quotient of at most 33 ones, and
  // only a remainder over s is an error.
  function Portable(dividend: nat, s: nat): Division {
    if s == 0 || dividend > s * Pow2(33) then DivideError
    else if dividend == s * Pow2(33) then Divided(Pow2(32) - 1, s)
    else Divided(Low(32, dividend / s), dividend % s)
  }

  // One step of the loop: whether the shifted divisor h_s:l_s was taken off h_dvd:l_dvd.
  method Step(hDvd: nat, lDvd: nat, hs: nat, ls: nat, div0: nat, ghost r: nat, ghost t: nat)
    returns (h: nat, l: nat, div: nat)
    requires hDvd < Pow2(32) && lDvd < Pow2(32) && hs < Pow2(32) && ls < Pow2(32) && div0 < Pow2(32)
    requires r == Pair(hDvd, lDvd) && t == Pair(hs, ls) && (ls > 0 ==> hs + 1 < Pow2(32))
    ensures h < Pow2(32) && l < Pow2(32) && div < Pow2(32)
    ensures Pair(h, l) == if r < t then r else r - t
    ensures div == Low(32, 2 * div0 + if r < t then 0 else 1)
  {
    hide Low, Pow2, Or, Shl;
    Pow2Values();
    div := Low(32, Shl(div0, 1));
    var carry := if lDvd >= ls then 0 else 1;
    SetLowBit(div0, div);
    if hDvd < Low(32, hs + carry) {
      LowOfSmall(32, hs + carry);
      return hDvd, lDvd, div;
    }
    LowOfSmall(32, hs + carry);
    h := Low(32, hDvd - Low(32, hs + carry));
    LowOfSmall(32, hDvd - (hs + carry));
    l := if carry == 1 then Low(32, 0xFFFF_FFFF - ls + lDvd + 1) else lDvd - ls;
    if carry == 1 { LowOfSmall(32, 0xFFFF_FFFF - ls + lDvd + 1); }
    div := Or(div, 1);
  }

  lemma LowOfDouble(x: nat)
    ensures Low(32, 2 * x) == 2 * Low(31, x) && Low(32, 2 * x + 1) == 2 * Low(31, x) + 1
  {
    hide Low;
    HalfLow(2 * x, 32);
    HalfLow(2 * x + 1, 32);
    assert (2 * x) / 2 == x && (2 * x + 1) / 2 == x;
  }

  lemma SetLowBit(x: nat, y: nat)
    requires y == Low(32, Shl(x, 1))
    ensures y == Low(32, 2 * x) && Or(y, 1) == Low(32, 2 * x + 1)
  {
    hide Low, Shl, Or, Pow2;
    Pow2Values();
    var z := Low(31, x);
    ShlIsProduct(x, 1);
    ShlIsProduct(z, 1);
    LowOfDouble(x);
    OrIsSum(z, 1, 1);
  }

  // The registers' dividend.
  function Dividend(m: Machine): nat
    reads m
  {
    Pair(m.edx, m.eax)
  }

  // div_long without a 64-bit type. The shift by the last, negative counter gives a
  // divisor that is not used.
  method DivLong(m: Machine, s: nat)
    requires s < Pow2(32) && m.eax < Pow2(32) && m.edx < Pow2(32)
    modifies m
    ensures match Portable(old(Dividend(m)), s)
            case DivideError =>
              m.raised && m.eax == old(m.eax) && m.edx == old(m.edx) && m.cf == old(m.cf) && m.af == old(m.af)
              && m.sf == old(m.sf) && m.zf == old(m.zf) && m.pf == old(m.pf)
            case Divided(eax, edx) =>
              m.raised == old(m.raised) && m.eax == eax && m.edx == edx
              && !m.cf && !m.af && !m.sf && m.zf && (m.pf <==> EvenOnes(edx, 8))
    ensures m.of == old(m.of) && m.ip == old(m.ip) && m.registers == old(m.registers) && m.memory == old(m.memory)
  {
    hide Low, Shl, Shr, Portable, Pow2, TableParity, And, Ones, Quotient33, Reached, Pair;
    if s == 0 {
      PortableIs(Dividend(m), s, 0, 0);
      m.raised := true;
      return;
    }
    var hDvd, lDvd, div := DivLoop(m.edx, m.eax, s);
    ghost var q, r := QuotientIsReached(Dividend(m), s);
    PortableIs(Dividend(m), s, q, r);
    RemainderWord(hDvd, lDvd, s, r);
    if hDvd != 0 || lDvd > s {
      m.raised := true;
      return;
    }
    ResultBits(32, lDvd);
    m.cf, m.af, m.sf, m.zf := false, false, false, true;
    m.pf := TableParity(And(lDvd, 0xff));
    m.eax, m.edx := div, lDvd;
    LowOfSmall(32, lDvd);
  }

  // A quotient with its remainder, as far as 33 steps bring it.
  ghost predicate Reached(dividend: nat, s: nat, q: nat, r: nat) {
    dividend == q * s + r && q < Pow2(33) && (r < s || q + 1 == Pow2(33))
  }

  ghost predicate Halfway(dividend: nat, u: nat, q: nat, r: nat, steps: nat) {
    dividend == q * u + r && q < Pow2(steps) && (r < u || q + 1 == Pow2(steps))
  }

  ghost predicate LoopResult(dividend: nat, s: nat, h: nat, l: nat, div: nat, q: nat, r: nat) {
    h < Pow2(32) && l < Pow2(32) && r == Pair(h, l) && div == Low(32, q) && Reached(dividend, s, q, r)
  }

  // Before the step for `counter`: the divisor shifted by it is h_s:l_s, and the quotient
  // so far is right for the divisor shifted by one more.
  ghost predicate Before(dividend: nat, s: nat, counter: nat, h: nat, l: nat, hs: nat, ls: nat, div: nat, q: nat) {
    h < Pow2(32) && l < Pow2(32) && hs < Pow2(32) && ls < Pow2(32) && (ls > 0 ==> hs + 1 < Pow2(32))
    && counter <= 32 && Pair(hs, ls) == Shl(s, counter) && div == Low(32, q)
    && Halfway(dividend, Shl(s, counter + 1), q, Pair(h, l), 32 - counter)
  }

  // One iteration of the do loop of div_long.
  method Iteration(counter0: nat, h0: nat, l0: nat, hs0: nat, ls0: nat, div0: nat, s: nat,
                   ghost dividend: nat, ghost q0: nat)
    returns (counter: int, h: nat, l: nat, hs: nat, ls: nat, div: nat, ghost q: nat)
    requires Before(dividend, s, counter0, h0, l0, hs0, ls0, div0, q0)
    ensures counter == counter0 - 1
    ensures counter >= 0 ==> Before(dividend, s, counter, h, l, hs, ls, div, q)
    ensures counter < 0 ==> LoopResult(dividend, s, h, l, div, q, Pair(h, l))
  {
    hide Low, Shl, Shr, Pow2, Halfway, Pair, Reached;
    ghost var r, t := Pair(h0, l0), Shl(s, counter0);
    h, l, div := Step(h0, l0, hs0, ls0, div0, r, t);
    Doubled(s, counter0);
    QuotientStep(dividend, Shl(s, counter0 + 1), t, q0, r, 32 - counter0, 33 - counter0);
    LowOfStep(q0, if r < t then 0 else 1);
    q := if r < t then 2 * q0 else 2 * q0 + 1;
    counter := counter0 - 1;
    hs := Shr(hs0, 1);
    ls := if counter >= 0 then Low(32, Shl(s, counter)) else 0;
    if counter >= 0 {
      NextDivisor(s, counter, hs0, ls0, t);
    } else {
      LoopEnds(dividend, s, t, q, Pair(h, l));
    }
  }

  // The loop's quotient: that of the division, as far as 33 bits hold it.
  function Quotient33(dividend: nat, s: nat): nat
    requires s > 0
  {
    if dividend / s < Pow2(33) then dividend / s else Pow2(33) - 1
  }

  // The do loop of div_long.
  method DivLoop(edx: nat, eax: nat, s: nat) returns (hDvd: nat, lDvd: nat, div: nat)
    requires 0 < s < Pow2(32) && eax < Pow2(32) && edx < Pow2(32)
    ensures lDvd < Pow2(32) && div == Low(32, Quotient33(Pair(edx, eax), s))
    ensures Pair(hDvd, lDvd) == Pair(edx, eax) - Quotient33(Pair(edx, eax), s) * s
  {
    hide Low, Shl, Shr, Pow2, Halfway, Quotient33, Reached;
    ghost var dividend, q: nat := Pair(edx, eax), 0;
    hDvd, lDvd, div := edx, eax, 0;
    var hs, ls := s, 0;
    var counter := 32;
    LoopStarts(dividend, s);
    while counter > -1
      invariant -1 <= counter <= 32
      invariant counter >= 0 ==> Before(dividend, s, counter, hDvd, lDvd, hs, ls, div, q)
      invariant counter < 0 ==> LoopResult(dividend, s, hDvd, lDvd, div, q, Pair(hDvd, lDvd))
    {
      counter, hDvd, lDvd, hs, ls, div, q := Iteration(counter, hDvd, lDvd, hs, ls, div, s, dividend, q);
    }
    ReachedIs(dividend, s, q, Pair(hDvd, lDvd));
  }

  lemma ReachedIs(dividend: nat, s: nat, q: nat, r: nat)
    requires s > 0 && Reached(dividend, s, q, r)
    ensures q == Quotient33(dividend, s) && r == dividend - q * s
  {
    hide Pow2;
    if r < s {
      Residue(dividend, s, r, q);
    } else {
      DivMod(dividend, s);
      NextMultiple(q, s, Pow2(33));
      var n := dividend / s;
      if n < Pow2(33) {
        ProductBound(n + 1, s, Pow2(33), s);
        NextMultiple(n, s, n + 1);
      }
    }
  }

  lemma QuotientIsReached(dividend: nat, s: nat) returns (q: nat, r: nat)
    requires s > 0
    ensures q == Quotient33(dividend, s) && r == dividend - q * s && Reached(dividend, s, q, r)
  {
    hide Pow2;
    DivMod(dividend, s);
    q := Quotient33(dividend, s);
    if dividend / s >= Pow2(33) {
      ProductBound(Pow2(33), s, dividend / s, s);
      NextMultiple(q, s, Pow2(33));
    }
    r := dividend - q * s;
  }

  lemma Doubled(s: nat, n: nat)
    ensures Shl(s, n + 1) == 2 * Shl(s, n)
  {
  }

  lemma LoopStarts(dividend: nat, s: nat)
    requires s > 0
    ensures Pair(s, 0) == Shl(s, 32) && Halfway(dividend, Shl(s, 33), 0, dividend, 0) && Low(32, 0) == 0
    ensures Pow2(32) > 1
  {
    hide Pow2, Shl;
    Pow2Values();
    ShlIsProduct(s, 32);
    assert 0 * Shl(s, 33) == 0;
    LowOfSmall(32, 0);
    NothingYet(dividend, s);
  }

  lemma NothingYet(dividend: nat, s: nat)
    ensures Halfway(dividend, Shl(s, 33), 0, dividend, 0)
  {
    hide Shl;
    assert 0 * Shl(s, 33) == 0;
    assert Pow2(0) == 1;
  }

  lemma LoopEnds(dividend: nat, s: nat, u: nat, q: nat, r: nat)
    requires Halfway(dividend, u, q, r, 33) && u == Shl(s, 0)
    ensures Reached(dividend, s, q, r)
  {
    assert Shl(s, 0) == s;
  }

  // Taking the divisor off, or not, keeps quotient and remainder right at the next bit.
  lemma QuotientStep(dividend: nat, u: nat, t: nat, q: nat, r: nat, n: nat, n1: nat)
    requires Halfway(dividend, u, q, r, n) && u == 2 * t && n1 == n + 1
    ensures Halfway(dividend, t, if r < t then 2 * q else 2 * q + 1, if r < t then r else r - t, n1)
  {
    DoubleProduct(q, t);
    Factored(q, t);
  }

  lemma Factored(q: nat, t: nat)
    ensures (2 * q) * t == q * (2 * t) && (2 * q + 1) * t == q * (2 * t) + t
  {
  }

  lemma LowOfStep(q: nat, b: nat)
    requires b <= 1
    ensures Low(32, 2 * Low(32, q) + b) == Low(32, 2 * q + b)
  {
    hide Low;
    LowOfDouble(q);
    LowOfDouble(Low(32, q));
    LowOfLow(31, 32, q);
  }

  // Halving the divisor's high word and shifting its low word anew.
  lemma NextDivisor(s: nat, c: nat, hs: nat, ls: nat, u: nat)
    requires u == Shl(s, c + 1) && u == Pair(hs, ls) && hs < Pow2(32) && ls < Pow2(32)
    ensures Shl(s, c) == Pair(Shr(hs, 1), Low(32, Shl(s, c))) && Shr(hs, 1) + 1 < Pow2(32)
  {
    hide Shl, Pow2;
    Pow2Values();
    Doubled(s, c);
    assert Shr(hs, 1) == Shr(hs / 2, 0) == hs / 2;
    HalfPair(Shl(s, c), hs, ls);
  }

  lemma HalfPair(t: nat, hs: nat, ls: nat)
    requires 2 * t == Pair(hs, ls) && ls < 0x1_0000_0000
    ensures t == Pair(hs / 2, t % 0x1_0000_0000)
  {
    var r := (0x1_0000_0000 * (hs % 2) + ls) / 2;
    assert t == hs / 2 * 0x1_0000_0000 + r;
    Residue(t, 0x1_0000_0000, r, hs / 2);
  }

  lemma RemainderWord(h: nat, l: nat, s: nat, r: nat)
    requires s < Pow2(32) && l < Pow2(32) && r == Pair(h, l)
    ensures r > s <==> h != 0 || l > s
    ensures h == 0 ==> r == l
  {
    Pow2Values();
  }

  lemma LessThanNext(q: nat, s: nat, r: nat, p: nat)
    requires q < p
    ensures r < s ==> q * s + r < s * p
    ensures q + 1 == p ==> q * s + r == s * p + r - s
  {
    var n := q + 1;
    ProductBound(n, s, p, s);
    NextMultiple(q, s, n);
  }

  lemma NextMultiple(q: nat, s: nat, n: nat)
    requires n == q + 1
    ensures n * s == q * s + s
  {
  }

  lemma PortableIs(dividend: nat, s: nat, q: nat, r: nat)
    requires s == 0 || Reached(dividend, s, q, r)
    ensures s == 0 ==> Portable(dividend, s) == DivideError
    ensures s > 0 && r > s ==> Portable(dividend, s) == DivideError
    ensures s > 0 && r <= s ==> Portable(dividend, s) == Divided(Low(32, q), r)
  {
    if s > 0 {
      hide Low, Pow2;
      LessThanNext(q, s, r, Pow2(33));
      if r < s { Residue(dividend, s, r, q); }
      AllOnes();
    }
  }

  lemma AllOnes()
    ensures Low(32, Pow2(33) - 1) == Pow2(32) - 1
  {
    Pow2Values();
    assert Pow2(33) == 0x2_0000_0000;
  }

  // The portable loop meets the DIV entry exactly when the quotient fits, the divisor is
  // zero, or the dividend is over 2^33 divisors; in between it loses the overflow.
  lemma PortableMeetsSdmIff(edx: nat, eax: nat, s: nat, dividend: nat)
    requires edx < Pow2(32) && eax < Pow2(32) && s < Pow2(32) && dividend == Pair(edx, eax)
    ensures Portable(dividend, s) == Sdm(dividend, s) <==> s == 0 || edx < s || dividend > s * Pow2(33)
  {
    hide Low, Pow2, Pair;
    if s > 0 {
      QuotientFits(edx, eax, s, dividend);
      if edx < s {
        BelowDouble(dividend, s);
        LowOfSmall(32, dividend / s);
      }
    }
  }

  // The branch with a 64-bit type meets it exactly when the quotient fits or the divisor is
  // zero: it reports no overflow at all.
  lemma WideMeetsSdmIff(edx: nat, eax: nat, s: nat, dividend: nat)
    requires edx < Pow2(32) && eax < Pow2(32) && s < Pow2(32) && dividend == Pair(edx, eax)
    ensures Wide(dividend, s) == Sdm(dividend, s) <==> s == 0 || edx < s
    ensures s > 0 ==> Wide(dividend, s).Divided?
  {
    hide Low, Pow2, Pair;
    if s > 0 {
      QuotientFits(edx, eax, s, dividend);
      if edx < s { LowOfSmall(32, dividend / s); }
    }
  }

  // A dividend of exactly 2^32 divisors: the SDM raises the divide error, the loop does not.
  lemma OverflowIsMissed(s: nat)
    requires 0 < s < Pow2(32)
    ensures Sdm(Pair(s, 0), s) == DivideError && Portable(Pair(s, 0), s).Divided?
  {
    hide Low, Pow2;
    Pow2Values();
    QuotientFits(s, 0, s, Pair(s, 0));
    ShlIsProduct(s, 32);
    ShlIsProduct(s, 33);
    Doubled(s, 32);
  }

  // The overflow test of DIV: the quotient needs more than 32 bits.
  lemma QuotientFits(edx: nat, eax: nat, s: nat, dividend: nat)
    requires 0 < s && eax < Pow2(32) && dividend == Pair(edx, eax)
    ensures dividend / s < Pow2(32) <==> edx < s
    ensures edx < s ==> dividend < s * Pow2(32)
  {
    hide Pow2;
    Pow2Values();
    var b, q := 0x1_0000_0000, dividend / s;
    DivMod(dividend, s);
    if edx < s {
      if q >= b { ProductBound(b, s, q, s); }
      assert b * s == s * Pow2(32);
    } else if q < b {
      ProductBound(q + 1, s, b, s);
      NextMultiple(q, s, q + 1);
    }
  }

  lemma BelowDouble(dividend: nat, s: nat)
    requires dividend < s * Pow2(32)
    ensures dividend < s * Pow2(33)
  {
    ShlIsProduct(s, 32);
    ShlIsProduct(s, 33);
    assert Shl(s, 33) == 2 * Shl(s, 32);
  }

  // The two branches agree exactly below 2^33 divisors.
  lemma BranchesAgreeIff(dividend: nat, s: nat)
    ensures Portable(dividend, s) == Wide(dividend, s) <==> s == 0 || dividend < s * Pow2(33)
  {
    if s > 0 && dividend == s * Pow2(33) { Residue(dividend, s, 0, Pow2(33)); }
  }
}
