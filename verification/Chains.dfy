// The carry and borrow chains: the bit formulas the emulator derives its flags from, and
// what each of their bits means, for words of any width.
module Chains {
  import opened Bits

  // cc of the additions: the carry chain of d + s with result res, in a word of w bits.
  function CarryChain(w: nat, d: nat, s: nat, res: nat): nat
    requires res < Pow2(w)
  {
    Or(And(s, d), And(Not(w, res), Or(s, d)))
  }

  // bc of the subtractions: the borrow chain of d - s with result res.
  function BorrowChain(w: nat, d: nat, s: nat, res: nat): nat
    requires d < Pow2(w)
  {
    Or(And(res, Or(Not(w, d), s)), And(Not(w, d), s))
  }

  // Whether adding the low n bits of d and s and c carries out of them.
  predicate CarryOut(d: int, s: int, c: int, n: nat) { Low(n, d) + Low(n, s) + c >= Pow2(n) }

  // Whether subtracting s and b from d borrows from above the low n bits.
  predicate BorrowOut(d: int, s: int, b: int, n: nat) { Low(n, d) < Low(n, s) + b }

  lemma CarryOutHalf(d: int, s: int, c: int, n: nat, c1: int)
    requires n >= 1 && 0 <= c <= 1 && c1 == (d % 2 + s % 2 + c) / 2
    ensures CarryOut(d, s, c, n) <==> CarryOut(d / 2, s / 2, c1, n - 1)
  {
    HalfLow(d, n);
    HalfLow(s, n);
  }

  lemma BorrowOutHalf(d: int, s: int, b: int, n: nat, b1: int)
    requires n >= 1 && 0 <= b <= 1 && b1 == if d % 2 < s % 2 + b then 1 else 0
    ensures BorrowOut(d, s, b, n) <==> BorrowOut(d / 2, s / 2, b1, n - 1)
  {
    HalfLow(d, n);
    HalfLow(s, n);
  }

  predicate CarryBit(d: int, s: int, t: int, i: nat) {
    (Bit(s, i) && Bit(d, i)) || (!Bit(t, i) && (Bit(s, i) || Bit(d, i)))
  }

  predicate BorrowBit(d: int, s: int, t: int, i: nat) {
    (Bit(t, i) && (!Bit(d, i) || Bit(s, i))) || (!Bit(d, i) && Bit(s, i))
  }

  lemma {:induction false} CarryBitIs(d: int, s: int, c: int, t: int, i: nat, n: nat)
    requires 0 <= c <= 1 && t == d + s + c && n == i + 1
    ensures CarryBit(d, s, t, i) <==> CarryOut(d, s, c, n)
    decreases i
  {
    var c1 := (d % 2 + s % 2 + c) / 2;
    CarryOutHalf(d, s, c, n, c1);
    if i > 0 { CarryBitIs(d / 2, s / 2, c1, t / 2, i - 1, n - 1); }
  }

  lemma {:induction false} BorrowBitIs(d: int, s: int, b: int, t: int, i: nat, n: nat)
    requires 0 <= b <= 1 && t == d - s - b && n == i + 1
    ensures BorrowBit(d, s, t, i) <==> BorrowOut(d, s, b, n)
    decreases i
  {
    var b1 := if d % 2 < s % 2 + b then 1 else 0;
    BorrowOutHalf(d, s, b, n, b1);
    if i > 0 { BorrowBitIs(d / 2, s / 2, b1, t / 2, i - 1, n - 1); }
  }

  // Bit i of the carry chain is the carry out of bit i, at any width and carry in.
  lemma CarryChainIs(w: nat, d: nat, s: nat, c: int, res: nat, i: nat)
    requires 0 <= c <= 1 && res == Low(w, d + s + c) && i < w
    ensures Bit(CarryChain(w, d, s, res), i) <==> CarryOut(d, s, c, i + 1)
  {
    var t, n := d + s + c, i + 1;
    CarryBitIs(d, s, c, t, i, n);
    LowBit(w, t, i);
    OrBit(And(s, d), And(Not(w, res), Or(s, d)), i);
    AndBit(s, d, i);
    AndBit(Not(w, res), Or(s, d), i);
    NotBit(w, res, i);
    OrBit(s, d, i);
  }

  // Bit i of the borrow chain is the borrow into the bits above it.
  lemma BorrowChainIs(w: nat, d: nat, s: nat, b: int, res: nat, i: nat)
    requires 0 <= b <= 1 && d < Pow2(w) && res == Low(w, d - s - b) && i < w
    ensures Bit(BorrowChain(w, d, s, res), i) <==> BorrowOut(d, s, b, i + 1)
  {
    var t, n := d - s - b, i + 1;
    BorrowBitIs(d, s, b, t, i, n);
    LowBit(w, t, i);
    OrBit(And(res, Or(Not(w, d), s)), And(Not(w, d), s), i);
    AndBit(res, Or(Not(w, d), s), i);
    AndBit(Not(w, d), s, i);
    NotBit(w, d, i);
    OrBit(Not(w, d), s, i);
  }

  // The formula of inc_byte brackets the operators differently; its bits are the same.
  lemma OtherBracketing(w: nat, d: nat, s: nat, res: nat, i: nat)
    requires res < Pow2(w) && i < w
    ensures Bit(And(Or(And(s, d), Not(w, res)), Or(s, d)), i) <==> Bit(CarryChain(w, d, s, res), i)
  {
    AndBit(Or(And(s, d), Not(w, res)), Or(s, d), i);
    OrBit(And(s, d), Not(w, res), i);
    AndBit(s, d, i);
    OrBit(s, d, i);
    OrBit(And(s, d), And(Not(w, res), Or(s, d)), i);
    AndBit(Not(w, res), Or(s, d), i);
  }

  // neg has no d: at d == 0 the borrow chain is res | s.
  lemma NegChain(w: nat, s: nat, res: nat, i: nat)
    requires i < w
    ensures Bit(BorrowChain(w, 0, s, res), i) <==> Bit(Or(res, s), i)
  {
    ZeroBit(i);
    NotBit(w, 0, i);
    OrBit(And(res, Or(Not(w, 0), s)), And(Not(w, 0), s), i);
    AndBit(res, Or(Not(w, 0), s), i);
    AndBit(Not(w, 0), s, i);
    OrBit(Not(w, 0), s, i);
    OrBit(res, s, i);
  }

  // ------------------------------------------------------------------- overflow

  // A word's top bit and the rest.
  lemma TopAndRest(w: nat, x: nat)
    requires w >= 1 && x < Pow2(w)
    ensures Low(w, x) == x && Low(w - 1, x) == if x < Pow2(w - 1) then x else x - Pow2(w - 1)
  {
    Residue(x, Pow2(w), x, 0);
    if x < Pow2(w - 1) { Residue(x, Pow2(w - 1), x, 0); }
    else { Residue(x, Pow2(w - 1), x - Pow2(w - 1), 1); }
  }

  // The two top carries differ exactly when the signed sum does not fit.
  lemma CarryOverflow(w: nat, d: nat, s: nat, c: int)
    requires w >= 1 && d < Pow2(w) && s < Pow2(w) && 0 <= c <= 1
    ensures CarryOut(d, s, c, w - 1) != CarryOut(d, s, c, w) <==> !InSigned(w, Signed(w, d) + Signed(w, s) + c)
  {
    TopAndRest(w, d);
    TopAndRest(w, s);
  }

  lemma BorrowOverflow(w: nat, d: nat, s: nat, b: int)
    requires w >= 1 && d < Pow2(w) && s < Pow2(w) && 0 <= b <= 1
    ensures BorrowOut(d, s, b, w - 1) != BorrowOut(d, s, b, w) <==> !InSigned(w, Signed(w, d) - Signed(w, s) - b)
  {
    TopAndRest(w, d);
    TopAndRest(w, s);
  }
}
