// ADD, ADC, INC, SUB, SBB, CMP, DEC and NEG of the emulator, with their flags.
module AddSub {
  import opened Bits
  import opened Chains
  import opened X86

  // The C functions compute in words of 32 bits, whatever the operands' width.
  const WORD := 32

  predicate Width(w: nat) { w == 8 || w == 16 || w == 32 }

  // Zero, sign and parity of a result of w bits.
  ghost predicate ResultFlags(m: Machine, w: nat, r: nat)
    requires w >= 1
    reads m
  {
    (m.zf <==> r == 0) && (m.sf <==> r >= Pow2(w - 1)) && (m.pf <==> EvenOnes(r, 8))
  }

  // The flags of an addition with carry c, after the SDM's words: unsigned overflow, signed
  // overflow, a carry out of the low four bits, and those of the result.
  ghost predicate SumFlags(m: Machine, w: nat, d: nat, s: nat, c: int, r: nat)
    requires w >= 1
    reads m
  {
    (m.of <==> !InSigned(w, Signed(w, d) + Signed(w, s) + c)) && (m.af <==> d % 16 + s % 16 + c >= 16)
    && ResultFlags(m, w, r)
  }

  ghost predicate DifferenceFlags(m: Machine, w: nat, d: nat, s: nat, b: int, r: nat)
    requires w >= 1
    reads m
  {
    (m.of <==> !InSigned(w, Signed(w, d) - Signed(w, s) - b)) && (m.af <==> d % 16 < s % 16 + b)
    && ResultFlags(m, w, r)
  }

  function CarryIn(m: Machine): int
    reads m
  {
    if m.cf then 1 else 0
  }

  // The three lines that follow every result.
  method SetResultFlags(m: Machine, w: nat, res: nat)
    requires Width(w) && res < Pow2(WORD)
    modifies m`zf, m`sf, m`pf
    ensures ResultFlags(m, w, Low(w, res))
  {
    hide And, Or, Shr, Pow2, Bit, Ones, TableParity;
    ResultBits(w, res);
    m.zf := And(res, Pow2(w) - 1) == 0;
    m.sf := And(res, Pow2(w - 1)) != 0;
    m.pf := TableParity(And(res, 0xff));
  }

  method SetSumFlags(m: Machine, w: nat, d: nat, s: nat, res: nat, cc: nat, ghost c: int)
    requires Width(w) && d < Pow2(w) && s < Pow2(w) && 0 <= c <= 1
    requires res == Low(WORD, d + s + c) && cc == CarryChain(WORD, d, s, res)
    modifies m`zf, m`sf, m`pf, m`of, m`af
    ensures SumFlags(m, w, d, s, c, Low(w, res))
  {
    hide And, Or, Shr, Signed, InSigned, Pow2, Bit, Ones, Xor2, CarryChain, Low;
    SetResultFlags(m, w, res);
    ChainFlags(w, d, s, c, res, cc);
    m.of := Xor2(Shr(cc, w - 2));
    m.af := And(cc, 0x8) != 0;
  }

  method SetDifferenceFlags(m: Machine, w: nat, d: nat, s: nat, res: nat, bc: nat, ghost b: int)
    requires Width(w) && d < Pow2(w) && s < Pow2(w) && d < Pow2(WORD) && 0 <= b <= 1
    requires res == Low(WORD, d - s - b) && bc == BorrowChain(WORD, d, s, res)
    modifies m`cf, m`zf, m`sf, m`pf, m`of, m`af
    ensures DifferenceFlags(m, w, d, s, b, Low(w, res)) && (m.cf <==> d < s + b)
  {
    hide And, Or, Shr, Signed, InSigned, Pow2, Bit, Ones, Xor2, BorrowChain, Low;
    SetResultFlags(m, w, res);
    BorrowFlags(w, d, s, b, res, bc);
    m.cf := And(bc, Pow2(w - 1)) != 0;
    m.of := Xor2(Shr(bc, w - 2));
    m.af := And(bc, 0x8) != 0;
  }

  // add_byte and add_word
  method AddNarrow(m: Machine, w: nat, d: nat, s: nat) returns (r: nat)
    requires (w == 8 || w == 16) && d < Pow2(w) && s < Pow2(w)
    modifies m`cf, m`zf, m`sf, m`pf, m`of, m`af
    ensures r == Low(w, d + s) && (m.cf <==> d + s >= Pow2(w)) && SumFlags(m, w, d, s, 0, r)
  {
    hide And, Or, Shr, Signed, InSigned, Pow2, Bit, Ones, Xor2;
    var res := d + s;
    NarrowSum(w, d, s, 0, res);
    m.cf := And(res, Pow2(w)) != 0;
    var cc := Or(And(s, d), And(Not(WORD, res), Or(s, d)));
    SetSumFlags(m, w, d, s, res, cc, 0);
    return Low(w, res);
  }

  // adc_byte and adc_word
  method AdcNarrow(m: Machine, w: nat, d: nat, s: nat) returns (r: nat)
    requires (w == 8 || w == 16) && d < Pow2(w) && s < Pow2(w)
    modifies m`cf, m`zf, m`sf, m`pf, m`of, m`af
    ensures var c := old(CarryIn(m));
            r == Low(w, d + s + c) && (m.cf <==> d + s + c >= Pow2(w)) && SumFlags(m, w, d, s, c, r)
  {
    hide And, Or, Shr, Signed, InSigned, Pow2, Bit, Ones, Xor2;
    ghost var c := CarryIn(m);
    var res;
    if m.cf { res := 1 + d + s; } else { res := d + s; }
    NarrowSum(w, d, s, c, res);
    m.cf := And(res, Pow2(w)) != 0;
    var cc := Or(And(s, d), And(Not(WORD, res), Or(s, d)));
    SetSumFlags(m, w, d, s, res, cc, c);
    return Low(w, res);
  }

  method AddLong(m: Machine, d: nat, s: nat) returns (r: nat)
    requires d < Pow2(32) && s < Pow2(32)
    modifies m`cf, m`zf, m`sf, m`pf, m`of, m`af
    ensures r == Low(32, d + s) && (m.cf <==> d + s >= Pow2(32)) && SumFlags(m, 32, d, s, 0, r)
  {
    hide And, Or, Shr, Signed, InSigned, Pow2, Bit, Ones, Xor2;
    var lo := And(d, 0xFFFF) + And(s, 0xFFFF);
    var res := Low(WORD, d + s);
    var hi := Shr(lo, 16) + Shr(d, 16) + Shr(s, 16);
    SplitCarry(d, s, 0, lo, hi);
    m.cf := And(hi, 0x10000) != 0;
    var cc := Or(And(s, d), And(Not(WORD, res), Or(s, d)));
    SetSumFlags(m, 32, d, s, res, cc, 0);
    LowTwice(32, d + s);
    return res;
  }

  method AdcLong(m: Machine, d: nat, s: nat) returns (r: nat)
    requires d < Pow2(32) && s < Pow2(32)
    modifies m`cf, m`zf, m`sf, m`pf, m`of, m`af
    ensures var c := old(CarryIn(m));
            r == Low(32, d + s + c) && (m.cf <==> d + s + c >= Pow2(32)) && SumFlags(m, 32, d, s, c, r)
  {
    hide And, Or, Shr, Signed, InSigned, Pow2, Bit, Ones, Xor2;
    ghost var c := CarryIn(m);
    var lo, res;
    if m.cf {
      lo := 1 + And(d, 0xFFFF) + And(s, 0xFFFF);
      res := Low(WORD, 1 + d + s);
    } else {
      lo := And(d, 0xFFFF) + And(s, 0xFFFF);
      res := Low(WORD, d + s);
    }
    var hi := Shr(lo, 16) + Shr(d, 16) + Shr(s, 16);
    SplitCarry(d, s, c, lo, hi);
    m.cf := And(hi, 0x10000) != 0;
    var cc := Or(And(s, d), And(Not(WORD, res), Or(s, d)));
    SetSumFlags(m, 32, d, s, res, cc, c);
    LowTwice(32, d + s + c);
    return res;
  }

  // inc_byte, with its own bracketing of the chain
  method IncByte(m: Machine, d: nat) returns (r: nat)
    requires d < Pow2(8)
    modifies m`zf, m`sf, m`pf, m`of, m`af
    ensures r == Low(8, d + 1) && SumFlags(m, 8, d, 1, 0, r)
  {
    hide And, Or, Shr, Signed, InSigned, Pow2, Bit, Ones, Xor2;
    Pow2Values();
    var res := d + 1;
    NarrowSum(8, d, 1, 0, res);
    SetResultFlags(m, 8, res);
    var cc := And(Or(And(1, d), Not(WORD, res)), Or(1, d));
    OtherChainFlags(8, d, 1, res, cc);
    m.of := Xor2(Shr(cc, 6));
    m.af := And(cc, 0x8) != 0;
    return Low(8, res);
  }

  // inc_word and inc_long
  method Inc(m: Machine, w: nat, d: nat) returns (r: nat)
    requires (w == 16 || w == 32) && d < Pow2(w)
    modifies m`zf, m`sf, m`pf, m`of, m`af
    ensures r == Low(w, d + 1) && SumFlags(m, w, d, 1, 0, r)
  {
    hide And, Or, Shr, Signed, InSigned, Pow2, Bit, Ones, Xor2;
    Pow2Values();
    var res := Low(WORD, d + 1);
    var cc := Or(And(1, d), And(Not(WORD, res), Or(1, d)));
    SetSumFlags(m, w, d, 1, res, cc, 0);
    LowOfWord(w, d + 1);
    return Low(w, res);
  }

  // sub_byte, sub_word and sub_long
  method Sub(m: Machine, w: nat, d: nat, s: nat) returns (r: nat)
    requires Width(w) && d < Pow2(w) && s < Pow2(w)
    modifies m`cf, m`zf, m`sf, m`pf, m`of, m`af
    ensures r == Low(w, d - s) && (m.cf <==> d < s) && DifferenceFlags(m, w, d, s, 0, r)
  {
    hide And, Or, Shr, Signed, InSigned, Pow2, Bit, Ones, Xor2;
    Pow2Grows(w, WORD);
    var res := Low(WORD, d - s);
    var bc := Or(And(res, Or(Not(WORD, d), s)), And(Not(WORD, d), s));
    SetDifferenceFlags(m, w, d, s, res, bc, 0);
    LowOfWord(w, d - s);
    return Low(w, res);
  }

  // sbb_byte, sbb_word and sbb_long
  method Sbb(m: Machine, w: nat, d: nat, s: nat) returns (r: nat)
    requires Width(w) && d < Pow2(w) && s < Pow2(w)
    modifies m`cf, m`zf, m`sf, m`pf, m`of, m`af
    ensures var b := old(CarryIn(m));
            r == Low(w, d - s - b) && (m.cf <==> d < s + b) && DifferenceFlags(m, w, d, s, b, r)
  {
    hide And, Or, Shr, Signed, InSigned, Pow2, Bit, Ones, Xor2;
    Pow2Grows(w, WORD);
    ghost var b := CarryIn(m);
    var res;
    if m.cf { res := Low(WORD, d - s - 1); } else { res := Low(WORD, d - s); }
    var bc := Or(And(res, Or(Not(WORD, d), s)), And(Not(WORD, d), s));
    SetDifferenceFlags(m, w, d, s, res, bc, b);
    LowOfWord(w, d - s - b);
    return Low(w, res);
  }

  // cmp_byte, cmp_word and cmp_long
  method Cmp(m: Machine, w: nat, d: nat, s: nat) returns (r: nat)
    requires Width(w) && d < Pow2(w) && s < Pow2(w)
    modifies m`cf, m`zf, m`sf, m`pf, m`of, m`af
    ensures r == d && (m.cf <==> d < s) && DifferenceFlags(m, w, d, s, 0, Low(w, d - s))
  {
    hide And, Or, Shr, Signed, InSigned, Pow2, Bit, Ones, Xor2;
    Pow2Grows(w, WORD);
    var res := Low(WORD, d - s);
    if w == 8 { m.cf := false; }
    var bc := Or(And(res, Or(Not(WORD, d), s)), And(Not(WORD, d), s));
    SetDifferenceFlags(m, w, d, s, res, bc, 0);
    LowOfWord(w, d - s);
    return d;
  }

  // dec_byte, dec_word and dec_long; the carry flag stays
  method Dec(m: Machine, w: nat, d: nat) returns (r: nat)
    requires Width(w) && d < Pow2(w)
    modifies m`zf, m`sf, m`pf, m`of, m`af
    ensures r == Low(w, d - 1) && DifferenceFlags(m, w, d, 1, 0, r)
  {
    hide And, Or, Shr, Signed, InSigned, Pow2, Bit, Ones, Xor2;
    Pow2Grows(w, WORD);
    Pow2Values();
    var res := Low(WORD, d - 1);
    SetResultFlags(m, w, res);
    var bc := Or(And(res, Or(Not(WORD, d), 1)), And(Not(WORD, d), 1));
    BorrowFlags(w, d, 1, 0, res, bc);
    m.of := Xor2(Shr(bc, w - 2));
    m.af := And(bc, 0x8) != 0;
    LowOfWord(w, d - 1);
    return Low(w, res);
  }

  // neg_byte, neg_word and neg_long, whose chain is the borrow chain of 0 - s
  method Neg(m: Machine, w: nat, s: nat) returns (r: nat)
    requires Width(w) && s < Pow2(w)
    modifies m`cf, m`zf, m`sf, m`pf, m`of, m`af
    ensures r == Low(w, 0 - s) && (m.cf <==> s != 0) && DifferenceFlags(m, w, 0, s, 0, r)
  {
    hide And, Or, Shr, Signed, InSigned, Pow2, Bit, Ones, Xor2;
    m.cf := s != 0;
    var res := Low(w, 0 - s);
    Pow2Grows(w, WORD);
    SetResultFlags(m, w, res);
    var bc := Or(res, s);
    NegFlags(w, s, res, bc);
    m.of := Xor2(Shr(bc, w - 2));
    m.af := And(bc, 0x8) != 0;
    LowTwice(w, 0 - s);
    return res;
  }

  // SBB with the same carry undoes ADC: the result, and the carry it left.
  lemma SbbUndoesAdc(w: nat, d: nat, s: nat, c: int, r: nat, carry: bool)
    requires d < Pow2(w) && s < Pow2(w) && 0 <= c <= 1
    requires r == Low(w, d + s + c) && (carry <==> d + s + c >= Pow2(w))
    ensures Low(w, r - s - c) == d && (r < s + c <==> carry)
  {
    hide Pow2;
    var p := Pow2(w);
    Residue(d + s + c, p, if carry then d + s + c - p else d + s + c, if carry then 1 else 0);
    Residue(r - s - c, p, d, if carry then -1 else 0);
  }

  // ------------------------------------------------------------------- proofs

  lemma LowTwice(w: nat, x: int)
    ensures Low(w, Low(w, x)) == Low(w, x)
  {
    Residue(Low(w, x), Pow2(w), Low(w, x), 0);
  }

  // Taking the low bits of a word that was truncated.
  lemma {:induction false} LowOfLow(w: nat, v: nat, x: int)
    requires w <= v
    ensures Low(w, Low(v, x)) == Low(w, x)
    decreases w
  {
    if w > 0 {
      hide Low;
      HalfLow(x, v);
      assert Low(v, x) / 2 == Low(v - 1, x / 2) && Low(v, x) % 2 == x % 2;
      HalfLow(Low(v, x), w);
      HalfLow(x, w);
      LowOfLow(w - 1, v - 1, x / 2);
    }
  }

  lemma LowOfWord(w: nat, x: int)
    requires w <= WORD
    ensures Low(w, Low(WORD, x)) == Low(w, x)
  {
    LowOfLow(w, WORD, x);
  }

  lemma {:induction false} OnesOfLow(w: nat, x: nat, n: nat)
    requires n <= w
    ensures Ones(Low(w, x), n) == Ones(x, n)
    decreases n
  {
    if n > 0 {
      HalfLow(x, w);
      OnesOfLow(w - 1, x / 2, n - 1);
    }
  }

  lemma ResultBits(w: nat, res: nat)
    requires Width(w) && res < Pow2(WORD)
    ensures And(res, Pow2(w) - 1) == Low(w, res)
    ensures And(res, Pow2(w - 1)) != 0 <==> Low(w, res) >= Pow2(w - 1)
    ensures And(res, 0xff) < 0x100 && (TableParity(And(res, 0xff)) <==> EvenOnes(Low(w, res), 8))
  {
    hide And, Or, Pow2, Bit, Ones, TableParity, Low;
    Pow2Values();
    MaskLow(res, w);
    MaskBit(res, w - 1);
    LowBit(w, res, w - 1);
    TopBit(Low(w, res), w - 1);
    MaskLow(res, 8);
    TableIsParity(Low(8, res));
    OnesOfLow(8, res, 8);
    OnesOfLow(w, res, 8);
  }

  lemma ChainFlags(w: nat, d: nat, s: nat, c: int, res: nat, cc: nat)
    requires Width(w) && d < Pow2(w) && s < Pow2(w) && 0 <= c <= 1
    requires res == Low(WORD, d + s + c) && cc == CarryChain(WORD, d, s, res)
    ensures Xor2(Shr(cc, w - 2)) <==> !InSigned(w, Signed(w, d) + Signed(w, s) + c)
    ensures And(cc, 8) != 0 <==> d % 16 + s % 16 + c >= 16
  {
    hide And, Or, Shr, Signed, InSigned, Pow2, Bit, Xor2, CarryChain;
    CarryChainIs(WORD, d, s, c, res, w - 2);
    CarryChainIs(WORD, d, s, c, res, w - 1);
    Xor2Shr(cc, w - 2, w - 1);
    CarryOverflow(w, d, s, c);
    CarryChainIs(WORD, d, s, c, res, 3);
    MaskBit(cc, 3);
    Pow2Values();
  }

  lemma BorrowFlags(w: nat, d: nat, s: nat, b: int, res: nat, bc: nat)
    requires Width(w) && d < Pow2(w) && s < Pow2(w) && d < Pow2(WORD) && 0 <= b <= 1
    requires res == Low(WORD, d - s - b) && bc == BorrowChain(WORD, d, s, res)
    ensures Xor2(Shr(bc, w - 2)) <==> !InSigned(w, Signed(w, d) - Signed(w, s) - b)
    ensures And(bc, 8) != 0 <==> d % 16 < s % 16 + b
    ensures And(bc, Pow2(w - 1)) != 0 <==> d < s + b
  {
    hide And, Or, Shr, Signed, InSigned, Pow2, Bit, Xor2, BorrowChain;
    BorrowChainIs(WORD, d, s, b, res, w - 2);
    BorrowChainIs(WORD, d, s, b, res, w - 1);
    Xor2Shr(bc, w - 2, w - 1);
    BorrowOverflow(w, d, s, b);
    BorrowChainIs(WORD, d, s, b, res, 3);
    MaskBit(bc, 3);
    MaskBit(bc, w - 1);
    TopAndRest(w, d);
    TopAndRest(w, s);
    Pow2Values();
  }

  lemma OtherChainFlags(w: nat, d: nat, s: nat, res: nat, cc: nat)
    requires Width(w) && d < Pow2(w) && s < Pow2(w) && res == Low(WORD, d + s)
    requires cc == And(Or(And(s, d), Not(WORD, res)), Or(s, d))
    ensures Xor2(Shr(cc, w - 2)) <==> !InSigned(w, Signed(w, d) + Signed(w, s))
    ensures And(cc, 8) != 0 <==> d % 16 + s % 16 >= 16
  {
    hide And, Or, Shr, Signed, InSigned, Pow2, Bit, Xor2, CarryChain, Low, Not;
    var chain := CarryChain(WORD, d, s, res);
    ChainFlags(w, d, s, 0, res, chain);
    OtherBracketing(WORD, d, s, res, w - 2);
    OtherBracketing(WORD, d, s, res, w - 1);
    OtherBracketing(WORD, d, s, res, 3);
    Xor2Shr(cc, w - 2, w - 1);
    Xor2Shr(chain, w - 2, w - 1);
    Pow2Values();
    MaskBit(cc, 3);
    MaskBit(chain, 3);
  }

  lemma NegFlags(w: nat, s: nat, res: nat, bc: nat)
    requires Width(w) && s < Pow2(w) && res == Low(w, 0 - s) && bc == Or(res, s)
    ensures Xor2(Shr(bc, w - 2)) <==> !InSigned(w, Signed(w, 0) - Signed(w, s))
    ensures And(bc, 8) != 0 <==> 0 < s % 16
  {
    hide And, Or, Shr, InSigned, Pow2, Bit, Xor2, BorrowChain;
    var chain := BorrowChain(w, 0, s, res);
    BorrowChainIs(w, 0, s, 0, res, w - 2);
    BorrowChainIs(w, 0, s, 0, res, w - 1);
    BorrowChainIs(w, 0, s, 0, res, 3);
    NegChain(w, s, res, w - 2);
    NegChain(w, s, res, w - 1);
    NegChain(w, s, res, 3);
    Xor2Shr(bc, w - 2, w - 1);
    BorrowOverflow(w, 0, s, 0);
    MaskBit(bc, 3);
    Pow2Values();
  }

  // A sum of narrow operands does not reach the end of the word, and its carry is bit w.
  lemma NarrowSum(w: nat, d: nat, s: nat, c: int, res: nat)
    requires (w == 8 || w == 16) && d < Pow2(w) && s < Pow2(w) && 0 <= c <= 1 && res == d + s + c
    ensures res < Pow2(WORD) && res == Low(WORD, res)
    ensures And(res, Pow2(w)) != 0 <==> res >= Pow2(w)
  {
    Pow2Values();
    Residue(res, Pow2(WORD), res, 0);
    MaskBit(res, w);
    TopBit(res, w);
  }

  // The carry of a 32-bit sum, from the sums of its halves.
  lemma SplitCarry(d: nat, s: nat, c: int, lo: nat, hi: nat)
    requires d < Pow2(32) && s < Pow2(32) && 0 <= c <= 1
    requires lo == And(d, 0xFFFF) + And(s, 0xFFFF) + c
    requires hi == Shr(lo, 16) + Shr(d, 16) + Shr(s, 16)
    ensures And(hi, 0x10000) != 0 <==> d + s + c >= Pow2(32)
  {
    Pow2Values();
    MaskLow(d, 16);
    MaskLow(s, 16);
    ShrIsQuotient(lo, 16);
    ShrIsQuotient(d, 16);
    ShrIsQuotient(s, 16);
    MaskBit(hi, 16);
    TopBit(hi, 16);
  }
}
