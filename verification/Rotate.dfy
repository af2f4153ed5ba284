// RCL, RCR, ROL and ROR of the emulator.
module Rotate {
  import opened Bits
  import opened X86
  import opened AddSub

  // -------------------------------------------------------- rotations of n bits

  // One step to the left and one to the right.
  function Left1(n: nat, x: nat): (y: nat)
    requires n >= 1 && x < Pow2(n)
    ensures y < Pow2(n)
  {
    2 * Low(n - 1, x) + if x >= Pow2(n - 1) then 1 else 0
  }

  function Right1(n: nat, x: nat): (y: nat)
    requires n >= 1 && x < Pow2(n)
    ensures y < Pow2(n)
  {
    x / 2 + if x % 2 == 1 then Pow2(n - 1) else 0
  }

  function Left(n: nat, x: nat, k: nat): (y: nat)
    requires n >= 1 && x < Pow2(n)
    ensures y < Pow2(n)
  {
    if k == 0 then x else Left1(n, Left(n, x, k - 1))
  }

  function Right(n: nat, x: nat, k: nat): (y: nat)
    requires n >= 1 && x < Pow2(n)
    ensures y < Pow2(n)
    decreases k
  {
    if k == 0 then x else Right(n, Right1(n, x), k - 1)
  }

  lemma Right1UndoesLeft1(n: nat, x: nat)
    requires n >= 1 && x < Pow2(n)
    ensures Right1(n, Left1(n, x)) == x && Left1(n, Right1(n, x)) == x
  {
    hide Low, Pow2;
    TopPart(n, x);
    Twice(Low(n - 1, x), if x >= Pow2(n - 1) then 1 else 0);
    var h, b := x / 2, x % 2;
    assert h < Pow2(n - 1) by { assert Pow2(n) == 2 * Pow2(n - 1) by { Pow2Step(n); } }
    TopPart(n, Right1(n, x));
    assert Low(n - 1, Right1(n, x)) == h;
  }

  lemma Pow2Step(n: nat)
    requires n >= 1
    ensures Pow2(n) == 2 * Pow2(n - 1)
  {
  }

  lemma TopPart(n: nat, x: nat)
    requires n >= 1 && x < Pow2(n)
    ensures x == Low(n - 1, x) + if x >= Pow2(n - 1) then Pow2(n - 1) else 0
  {
    Residue(x, Pow2(n - 1), if x >= Pow2(n - 1) then x - Pow2(n - 1) else x, if x >= Pow2(n - 1) then 1 else 0);
  }

  // As many steps to the right undo steps to the left.
  lemma {:induction false} RightUndoesLeft(n: nat, x: nat, k: nat)
    requires n >= 1 && x < Pow2(n)
    ensures Right(n, Left(n, x, k), k) == x
    decreases k
  {
    if k > 0 {
      Right1UndoesLeft1(n, Left(n, x, k - 1));
      RightUndoesLeft(n, x, k - 1);
    }
  }

  lemma Left1Bit(n: nat, x: nat, j: nat)
    requires n >= 1 && x < Pow2(n) && j < n
    ensures Bit(Left1(n, x), j) <==> Bit(x, if j == 0 then n - 1 else j - 1)
  {
    hide Low;
    if j == 0 { TopBit(x, n - 1); } else { LowBit(n - 1, x, j - 1); }
  }

  // The bit that k <= n steps to the left bring to place j.
  function Source(n: nat, k: nat, j: nat): nat
    requires k <= n && j < n
  {
    if j >= k then j - k else j + n - k
  }

  lemma {:induction false} LeftBit(n: nat, x: nat, k: nat, j: nat)
    requires n >= 1 && x < Pow2(n) && k <= n && j < n
    ensures Bit(Left(n, x, k), j) <==> Bit(x, Source(n, k, j))
    decreases k
  {
    if k > 0 {
      Left1Bit(n, Left(n, x, k - 1), j);
      LeftBit(n, x, k - 1, if j == 0 then n - 1 else j - 1);
    }
  }

  lemma FullTurn(n: nat, x: nat)
    requires n >= 1 && x < Pow2(n)
    ensures Left(n, x, n) == x
  {
    forall j: nat | j < n ensures Bit(Left(n, x, n), j) <==> Bit(x, j) { LeftBit(n, x, n, j); }
    SameBits(n, Left(n, x, n), x);
  }

  lemma {:induction false} LeftSum(n: nat, x: nat, a: nat, b: nat, k: nat)
    requires n >= 1 && x < Pow2(n) && k == a + b
    ensures Left(n, x, k) == Left(n, Left(n, x, a), b)
    decreases b
  {
    if b > 0 { LeftSum(n, x, a, b - 1, k - 1); }
  }

  lemma NoSteps(n: nat, x: nat)
    requires n >= 1 && x < Pow2(n)
    ensures Left(n, x, 0) == x && Right(n, x, 0) == x
  {
  }

  // Only the count modulo the width matters.
  lemma {:induction false} LeftModulo(n: nat, x: nat, k: nat)
    requires n >= 1 && x < Pow2(n)
    ensures Left(n, x, k) == Left(n, x, k % n)
    decreases k
  {
    hide Left;
    if k < n {
      Residue(k, n, k, 0);
    } else {
      LeftModulo(n, x, k - n);
      NextModulo(n, k);
      LeftSum(n, x, k - n, n, k);
      FullTurn(n, Left(n, x, k - n));
    }
  }

  lemma NextModulo(n: nat, k: nat)
    requires k >= n >= 1
    ensures k % n == (k - n) % n
  {
    var q, r := (k - n) / n, (k - n) % n;
    assert (q + 1) * n == q * n + n;
    Residue(k, n, r, q + 1);
  }

  // Steps to the right are the missing steps to the left.
  lemma RightIsLeft(n: nat, x: nat, k: nat)
    requires n >= 1 && x < Pow2(n) && k <= n
    ensures Right(n, x, k) == Left(n, x, n - k)
  {
    LeftSum(n, x, n - k, k, n);
    FullTurn(n, x);
    RightUndoesLeft(n, Left(n, x, n - k), k);
  }

  lemma {:induction false} RightSum(n: nat, x: nat, a: nat, b: nat, k: nat)
    requires n >= 1 && x < Pow2(n) && k == a + b
    ensures Right(n, x, k) == Right(n, Right(n, x, a), b)
    decreases a
  {
    if a > 0 { RightSum(n, Right1(n, x), a - 1, b, k - 1); }
  }

  lemma {:induction false} RightModulo(n: nat, x: nat, k: nat)
    requires n >= 1 && x < Pow2(n)
    ensures Right(n, x, k) == Right(n, x, k % n)
    decreases k
  {
    hide Left, Right;
    if k < n {
      Residue(k, n, k, 0);
    } else {
      RightModulo(n, Right(n, x, n), k - n);
      NextModulo(n, k);
      RightSum(n, x, n, k - n, k);
      RightIsLeft(n, x, n);
      NoSteps(n, x);
    }
  }

  // -------------------------------------------------------- rotations with carry

  // The carry flag in front of a word of w bits.
  function WithCarry(w: nat, cf: bool, d: nat): (x: nat)
    requires d < Pow2(w)
    ensures x < Pow2(w + 1)
  {
    d + if cf then Pow2(w) else 0
  }

  lemma WithCarryBit(w: nat, cf: bool, d: nat, j: nat)
    requires d < Pow2(w) && j <= w
    ensures Bit(WithCarry(w, cf, d), j) <==> if j == w then cf else Bit(d, j)
  {
    var x := WithCarry(w, cf, d);
    if j == w { TopBit(x, w); }
    else {
      Residue(x, Pow2(w), d, if cf then 1 else 0);
      LowBit(w, x, j);
    }
  }

  // The parts of a word with carry are unique.
  lemma CarryParts(w: nat, c1: bool, d1: nat, c2: bool, d2: nat)
    requires d1 < Pow2(w) && d2 < Pow2(w) && WithCarry(w, c1, d1) == WithCarry(w, c2, d2)
    ensures c1 == c2 && d1 == d2
  {
  }

  predicate Narrow(w: nat) { w == 8 || w == 16 }

  // XOR2 of two bits put together.
  lemma Xor2Of(low: nat, high: nat)
    requires low <= 1 && (high == 0 || high == 2)
    ensures Xor2(low + high) <==> (low == 1) != (high == 2)
  {
  }

  // The words that rcl and rcr put together for a count that is not 0.
  function RclWord(w: nat, c: bool, d: nat, k: nat): nat
    requires 0 < k <= w
  {
    var res := Or(And(Shl(d, k), Pow2(w) - 1), And(Shr(d, w + 1 - k), Pow2(k - 1) - 1));
    if c then Or(res, Pow2(k - 1)) else res
  }

  function RcrWord(w: nat, c: bool, d: nat, k: nat): nat
    requires 0 < k <= w
  {
    var res := Or(And(Shr(d, k), Pow2(w - k) - 1), Shl(d, w + 1 - k));
    if c then Or(res, Pow2(w - k)) else res
  }

  lemma RclWordBit(w: nat, c: bool, d: nat, k: nat, j: nat)
    requires 0 < k <= w && j < w
    ensures Bit(RclWord(w, c, d, k), j)
       <==> if j >= k then Bit(d, j - k) else if j == k - 1 then c else Bit(d, j + w + 1 - k)
  {
    hide And, Or, Shl, Shr, Bit, Pow2;
    var a, b := And(Shl(d, k), Pow2(w) - 1), And(Shr(d, w + 1 - k), Pow2(k - 1) - 1);
    OrBit(a, b, j);
    OrBit(Or(a, b), Pow2(k - 1), j);
    PowerBit(k - 1, j);
    MaskedBit(Shl(d, k), w, j);
    ShlBit(d, k, j);
    MaskedBit(Shr(d, w + 1 - k), k - 1, j);
    ShrBit(d, w + 1 - k, j, j + w + 1 - k);
  }

  lemma RclWordFits(w: nat, c: bool, d: nat, k: nat)
    requires 0 < k <= w
    ensures RclWord(w, c, d, k) < Pow2(w)
  {
    hide And, Or, Shl, Shr, Low;
    var a, b := And(Shl(d, k), Pow2(w) - 1), And(Shr(d, w + 1 - k), Pow2(k - 1) - 1);
    MaskLow(Shl(d, k), w);
    MaskLow(Shr(d, w + 1 - k), k - 1);
    Pow2Grows(k - 1, w - 1);
    OrBound(a, b, w);
    OrBound(Or(a, b), Pow2(k - 1), w);
  }

  lemma RcrWordBit(w: nat, c: bool, d: nat, k: nat, j: nat)
    requires 0 < k <= w && d < Pow2(w) && j < w
    ensures Bit(RcrWord(w, c, d, k), j)
       <==> if j > w - k then Bit(d, j + k - w - 1) else if j == w - k then c else Bit(d, j + k)
  {
    hide And, Or, Shl, Shr, Bit, Pow2;
    var a, b := And(Shr(d, k), Pow2(w - k) - 1), Shl(d, w + 1 - k);
    OrBit(a, b, j);
    OrBit(Or(a, b), Pow2(w - k), j);
    PowerBit(w - k, j);
    MaskedBit(Shr(d, k), w - k, j);
    ShrBit(d, k, j, j + k);
    ShlBit(d, w + 1 - k, j);
  }

  // The carry flag after: bit w - k, and for rcr bit k - 1.
  lemma ShiftedOut(d: nat, i: nat)
    ensures And(Shr(d, i), 1) <= 1 && (And(Shr(d, i), 1) == 1 <==> Bit(d, i))
  {
    hide And, Shr, Bit;
    Pow2Values();
    MaskLow(Shr(d, i), 1);
    MaskBit(Shr(d, i), 0);
    ShrBit(d, i, 0, i);
  }

  lemma RclIsLeft(w: nat, c: bool, d: nat, k: nat, cf: bool, res: nat)
    requires 0 < k <= w && d < Pow2(w) && res == RclWord(w, c, d, k) && (cf <==> Bit(d, w - k))
    ensures res < Pow2(w) && WithCarry(w, cf, res) == Left(w + 1, WithCarry(w, c, d), k)
  {
    hide And, Or, Shl, Shr, Bit, Pow2, WithCarry, Left, RclWord;
    RclWordFits(w, c, d, k);
    var x, y, n := WithCarry(w, c, d), WithCarry(w, cf, res), w + 1;
    forall j: nat | j < n ensures Bit(y, j) <==> Bit(Left(n, x, k), j) {
      LeftBit(n, x, k, j);
      WithCarryBit(w, cf, res, j);
      WithCarryBit(w, c, d, Source(n, k, j));
      if j < w { RclWordBit(w, c, d, k, j); }
    }
    SameBits(n, y, Left(n, x, k));
  }

  lemma RcrIsRight(w: nat, c: bool, d: nat, k: nat, cf: bool, r: nat)
    requires 0 < k <= w && d < Pow2(w) && r == Low(w, RcrWord(w, c, d, k)) && (cf <==> Bit(d, k - 1))
    ensures WithCarry(w, cf, r) == Right(w + 1, WithCarry(w, c, d), k)
  {
    hide And, Or, Shl, Shr, Bit, Pow2, WithCarry, Left, Right, RcrWord, Low;
    var x, y, n := WithCarry(w, c, d), WithCarry(w, cf, r), w + 1;
    RightIsLeft(n, x, k);
    forall j: nat | j < n ensures Bit(y, j) <==> Bit(Left(n, x, n - k), j) {
      LeftBit(n, x, n - k, j);
      WithCarryBit(w, cf, r, j);
      WithCarryBit(w, c, d, Source(n, n - k, j));
      if j < w {
        RcrWordBit(w, c, d, k, j);
        LowBit(w, RcrWord(w, c, d, k), j);
      }
    }
    SameBits(n, y, Left(n, x, n - k));
  }

  lemma TopOfWord(w: nat, r: nat)
    requires w >= 1 && r < Pow2(w)
    ensures Bit(r, w - 1) <==> r >= Pow2(w - 1)
  {
    TopBit(r, w - 1);
  }

  // Two bits of a word, shifted down to the low ones and masked with 2.
  lemma TopOf(w: nat, x: nat, r: nat, top: nat)
    requires w >= 2 && r == Low(w, x) && top == And(Shr(x, w - 2), 2)
    ensures (top == 0 || top == 2) && (top == 2 <==> r >= Pow2(w - 1))
  {
    hide And, Shr, Bit, Low, Pow2;
    var y := Shr(x, w - 2);
    Pow2Values();
    BitMask(y, 1);
    MaskBit(y, 1);
    ShrBit(x, w - 2, 1, w - 1);
    LowBit(w, x, w - 1);
    TopOfWord(w, r);
  }

  // rcl_byte and rcl_word: s steps to the left of the carry flag and the word.
  method Rcl(m: Machine, w: nat, d: nat, s: nat) returns (r: nat)
    requires Narrow(w) && d < Pow2(w)
    modifies m`cf, m`of
    ensures r < Pow2(w) && WithCarry(w, m.cf, r) == Left(w + 1, WithCarry(w, old(m.cf), d), s)
    ensures m.of == if s % (w + 1) == 0 then old(m.of) else s % (w + 1) == 1 && m.cf != (r >= Pow2(w - 1))
  {
    hide And, Or, Shl, Shr, Low, Pow2, Left, Xor2, Bit, WithCarry;
    ghost var c := m.cf;
    var cnt := s % (w + 1);
    LeftModulo(w + 1, WithCarry(w, c, d), s);
    NoSteps(w + 1, WithCarry(w, c, d));
    if cnt == 0 { return d; }
    ShiftedOut(d, w - cnt);
    var cf := And(Shr(d, w - cnt), 1);
    var res := And(Shl(d, cnt), Pow2(w) - 1);
    var mask := Pow2(cnt - 1) - 1;
    res := Or(res, And(Shr(d, w + 1 - cnt), mask));
    if m.cf { res := Or(res, Pow2(cnt - 1)); }
    RclIsLeft(w, c, d, cnt, cf == 1, res);
    m.cf := cf != 0;
    LowOfSmall(w, res);
    var top := And(Shr(res, w - 2), 2);
    TopOf(w, res, res, top);
    Xor2Of(cf, top);
    m.of := cnt == 1 && Xor2(cf + top);
    return Low(w, res);
  }

  // rcr_byte and rcr_word: s steps to the right. The overflow flag stays unless there is one.
  method Rcr(m: Machine, w: nat, d: nat, s: nat) returns (r: nat)
    requires Narrow(w) && d < Pow2(w)
    modifies m`cf, m`of
    ensures r < Pow2(w) && WithCarry(w, m.cf, r) == Right(w + 1, WithCarry(w, old(m.cf), d), s)
    ensures m.of == if s % (w + 1) == 1 then old(m.cf) != (d >= Pow2(w - 1)) else old(m.of)
  {
    hide And, Or, Shl, Shr, Low, Pow2, Right, Xor2, Bit, WithCarry;
    ghost var c := m.cf;
    var cnt := s % (w + 1);
    RightModulo(w + 1, WithCarry(w, c, d), s);
    NoSteps(w + 1, WithCarry(w, c, d));
    if cnt == 0 { return d; }
    var cf, ocf := 0, 0;
    ShiftedOut(d, cnt - 1);
    if cnt == 1 {
      ShrNone(d);
      cf := And(d, 1);
      ocf := if m.cf then 1 else 0;
    } else {
      cf := And(Shr(d, cnt - 1), 1);
    }
    var mask := Pow2(w - cnt) - 1;
    var res := And(Shr(d, cnt), mask);
    res := Or(res, Shl(d, w + 1 - cnt));
    if m.cf { res := Or(res, Pow2(w - cnt)); }
    RcrIsRight(w, c, d, cnt, cf == 1, Low(w, res));
    m.cf := cf != 0;
    if cnt == 1 {
      LowOfSmall(w, d);
      var top := And(Shr(d, w - 2), 2);
      TopOf(w, d, d, top);
      Xor2Of(ocf, top);
      m.of := Xor2(ocf + top);
    }
    return Low(w, res);
  }

  lemma ShrNone(d: nat)
    ensures Shr(d, 0) == d
  {
  }

  // rcr with the same count undoes rcl, in the word and in the carry flag.
  lemma RcrUndoesRcl(w: nat, c: bool, d: nat, s: nat, c1: bool, d1: nat, c2: bool, d2: nat)
    requires d < Pow2(w) && d1 < Pow2(w) && d2 < Pow2(w)
    requires WithCarry(w, c1, d1) == Left(w + 1, WithCarry(w, c, d), s)
    requires WithCarry(w, c2, d2) == Right(w + 1, WithCarry(w, c1, d1), s)
    ensures c2 == c && d2 == d
  {
    RightUndoesLeft(w + 1, WithCarry(w, c, d), s);
    CarryParts(w, c2, d2, c, d);
  }

  // ------------------------------------------------------- rotations of the word

  // The word that rol puts together for a count k, and ror for the count w - k.
  function RolWord(w: nat, d: nat, k: nat): nat
    requires k <= w
  {
    Or(Low(WORD, Shl(d, k)), And(Shr(d, w - k), Pow2(k) - 1))
  }

  lemma RolIsLeft(w: nat, d: nat, k: nat, r: nat)
    requires Width(w) && 0 < k < w && d < Pow2(w) && r == Low(w, RolWord(w, d, k))
    ensures r == Left(w, d, k)
  {
    hide And, Or, Shl, Shr, Bit, Pow2, Left, Low;
    forall j: nat | j < w ensures Bit(r, j) <==> Bit(Left(w, d, k), j) {
      LeftBit(w, d, k, j);
      LowBit(w, RolWord(w, d, k), j);
      OrBit(Low(WORD, Shl(d, k)), And(Shr(d, w - k), Pow2(k) - 1), j);
      LowBit(WORD, Shl(d, k), j);
      ShlBit(d, k, j);
      MaskedBit(Shr(d, w - k), k, j);
      ShrBit(d, w - k, j, j + w - k);
    }
    SameBits(w, r, Left(w, d, k));
  }

  lemma LowestBit(w: nat, x: nat)
    requires w >= 1
    ensures And(x, 1) <= 1 && (And(x, 1) != 0 <==> Low(w, x) % 2 == 1)
  {
    ShrNone(x);
    ShiftedOut(x, 0);
    LowBit(w, x, 0);
  }

  // rol_byte, rol_word and rol_long: s steps to the left; the carry flag is the lowest bit.
  method Rol(m: Machine, w: nat, d: nat, s: nat) returns (r: nat)
    requires Width(w) && d < Pow2(w)
    modifies m`cf, m`of
    ensures r == Left(w, d, s)
    ensures m.cf == if s == 0 then old(m.cf) else r % 2 == 1
    ensures m.of == if s % w == 0 then old(m.of) else s == 1 && (r % 2 == 1) != (r >= Pow2(w - 1))
  {
    hide And, Or, Shl, Shr, Low, Pow2, Left, Xor2, Bit;
    var res, cnt := d, s % w;
    LeftModulo(w, d, s);
    NoSteps(w, d);
    LowOfSmall(w, d);
    if cnt != 0 {
      res := Low(WORD, Shl(d, cnt));
      var mask := Pow2(cnt) - 1;
      res := Or(res, And(Shr(d, w - cnt), mask));
      RolIsLeft(w, d, cnt, Low(w, res));
      LowestBit(w, res);
      m.cf := And(res, 1) != 0;
      var top := And(Shr(res, w - 2), 2);
      TopOf(w, res, Low(w, res), top);
      Xor2Of(And(res, 1), top);
      m.of := s == 1 && Xor2(And(res, 1) + top);
    }
    LowestBit(w, res);
    if s != 0 { m.cf := And(res, 1) != 0; }
    return Low(w, res);
  }

  lemma HighestBit(w: nat, x: nat)
    requires w >= 1
    ensures And(x, Pow2(w - 1)) != 0 <==> Low(w, x) >= Pow2(w - 1)
  {
    hide And, Low;
    MaskBit(x, w - 1);
    LowBit(w, x, w - 1);
    TopOfWord(w, Low(w, x));
  }

  // Whether the two highest bits of a word differ.
  predicate TopBitsDiffer(w: nat, r: nat)
    requires w >= 2
  {
    Bit(r, w - 2) != Bit(r, w - 1)
  }

  lemma TopBits(w: nat, x: nat)
    requires w >= 2
    ensures Xor2(Shr(x, w - 2)) <==> TopBitsDiffer(w, Low(w, x))
  {
    hide Bit, Shr, Low, Xor2;
    Xor2Shr(x, w - 2, w - 1);
    LowBit(w, x, w - 2);
    LowBit(w, x, w - 1);
  }

  // ror_byte, ror_word and ror_long: s steps to the right; the carry flag is the highest bit.
  method Ror(m: Machine, w: nat, d: nat, s: nat) returns (r: nat)
    requires Width(w) && d < Pow2(w)
    modifies m`cf, m`of
    ensures r == Right(w, d, s)
    ensures m.cf == if s == 0 then old(m.cf) else r >= Pow2(w - 1)
    ensures m.of == if s % w == 0 then old(m.of) else s == 1 && TopBitsDiffer(w, r)
  {
    hide And, Or, Shl, Shr, Low, Pow2, Left, Right, Xor2, Bit, TopBitsDiffer;
    var res, cnt := d, s % w;
    RightModulo(w, d, s);
    NoSteps(w, d);
    LowOfSmall(w, d);
    if cnt != 0 {
      res := Low(WORD, Shl(d, w - cnt));
      var mask := Pow2(w - cnt) - 1;
      res := Or(res, And(Shr(d, cnt), mask));
      RolIsLeft(w, d, w - cnt, Low(w, res));
      RightIsLeft(w, d, cnt);
      HighestBit(w, res);
      m.cf := And(res, Pow2(w - 1)) != 0;
      TopBits(w, res);
      m.of := s == 1 && Xor2(Shr(res, w - 2));
    } else if s != 0 {
      HighestBit(w, res);
      m.cf := And(res, Pow2(w - 1)) != 0;
    }
    return Low(w, res);
  }
}
