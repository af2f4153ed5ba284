// The emulated processor's state and its parity table.
module X86 {
  import opened Bits

  class Machine {
    var cf: bool
    var pf: bool
    var af: bool
    var zf: bool
    var sf: bool
    var of: bool
    var eax: nat
    var edx: nat
    var ip: nat
    // The eight byte registers, and the bytes of memory that have been stored.
    var registers: seq<nat>
    var memory: map<nat, nat>
    // Whether interrupt 0, the divide error, was raised.
    var raised: bool
  }

  const PARITY_TAB: seq<nat> :=
    [0x96696996, 0x69969669, 0x69969669, 0x96696996, 0x69969669, 0x96696996, 0x96696996, 0x69969669]

  // The PARITY macro.
  predicate TableParity(x: nat)
    requires x < 0x100
  {
    And(Shr(PARITY_TAB[x / 32], x % 32), 1) == 0
  }

  // How many of the low n bits are set.
  function Ones(x: nat, n: nat): nat {
    if n == 0 then 0 else x % 2 + Ones(x / 2, n - 1)
  }

  predicate EvenOnes(x: nat, n: nat) { Ones(x, n) % 2 == 0 }

  lemma {:induction false} OnesSplit(x: nat, y: nat, m: nat, n: nat, k: nat)
    requires k == m + n && x < Pow2(m)
    ensures Ones(Shl(y, m) + x, k) == Ones(x, m) + Ones(y, n)
    decreases m
  {
    if m > 0 {
      var z, h, b := Shl(y, m) + x, x / 2, x % 2;
      Twice(Shl(y, m - 1) + h, b);
      assert z / 2 == Shl(y, m - 1) + h && z % 2 == b;
      OnesSplit(h, y, m - 1, n, k - 1);
    }
  }

  lemma ThreeOnes(k: nat)
    ensures Ones(k, 3) == k % 2 + k / 2 % 2 + k / 2 / 2 % 2
  {
    var h := k / 2;
    assert Ones(h / 2, 1) == h / 2 % 2;
    assert Ones(h, 2) == h % 2 + Ones(h / 2, 1);
    assert Ones(k, 3) == k % 2 + Ones(h, 2);
  }

  // One word of the table, or its complement.
  lemma TableWord(k: nat)
    requires k < 8
    ensures PARITY_TAB[k] == if EvenOnes(k, 3) then 0x96696996 else 0x69969669
  {
    hide Ones;
    ThreeOnes(k);
    if k == 0 { assert Ones(k, 3) == 0; }
    else if k == 1 { assert Ones(k, 3) == 1; }
    else if k == 2 { assert Ones(k, 3) == 1; }
    else if k == 3 { assert Ones(k, 3) == 2; }
    else if k == 4 { assert Ones(k, 3) == 1; }
    else if k == 5 { assert Ones(k, 3) == 2; }
    else if k == 6 { assert Ones(k, 3) == 2; }
    else { assert Ones(k, 3) == 3; }
  }

  lemma ByteBits(j: nat)
    requires j < 8
    ensures Bit(0x96, j) <==> !EvenOnes(j, 3)
    ensures Bit(0x69, j) <==> EvenOnes(j, 3)
  {
    if j == 0 { assert !Bit(0x96, 0) && Bit(0x69, 0) && EvenOnes(0, 3); }
    else if j == 1 { assert Bit(0x96, 1) && !Bit(0x69, 1) && !EvenOnes(1, 3); }
    else if j == 2 { assert Bit(0x96, 2) && !Bit(0x69, 2) && !EvenOnes(2, 3); }
    else if j == 3 { assert !Bit(0x96, 3) && Bit(0x69, 3) && EvenOnes(3, 3); }
    else if j == 4 { assert Bit(0x96, 4) && !Bit(0x69, 4) && !EvenOnes(4, 3); }
    else if j == 5 { assert !Bit(0x96, 5) && Bit(0x69, 5) && EvenOnes(5, 3); }
    else if j == 6 { assert !Bit(0x96, 6) && Bit(0x69, 6) && EvenOnes(6, 3); }
    else if j == 7 { assert Bit(0x96, 7) && !Bit(0x69, 7) && !EvenOnes(7, 3); }
  }

  // A word of four bytes.
  lemma WordByte(x: nat, b: nat, y: nat, j: nat)
    requires b < 0x100 && x == 0x100 * y + b
    ensures Bit(x, j) <==> if j < 8 then Bit(b, j) else Bit(y, j - 8)
  {
    ShlIsProduct(y, 8);
    assert Pow2(8) == 0x100;
    JoinedBit(x, y, b, 8, j);
  }

  lemma TwoOnes()
    ensures Ones(0, 2) == 0 && Ones(1, 2) == 1 && Ones(2, 2) == 1 && Ones(3, 2) == 2
  {
  }

  lemma WordBits(j: nat)
    requires j < 32
    ensures Bit(0x96696996, j) <==> !EvenOnes(j, 5)
    ensures Bit(0x69969669, j) <==> EvenOnes(j, 5)
  {
    hide Bit, Ones, Shl, Pow2;
    var k, i := j / 8, j % 8;
    ByteBits(i);
    ShlIsProduct(k, 3);
    Pow2Values();
    OnesSplit(i, k, 3, 2, 5);
    assert j == Shl(k, 3) + i;
    TwoOnes();
    WordByte(0x96696996, 0x96, 0x966969, j);
    WordByte(0x69969669, 0x69, 0x699696, j);
    if j >= 8 {
      WordByte(0x966969, 0x69, 0x9669, j - 8);
      WordByte(0x699696, 0x96, 0x6996, j - 8);
    }
    if j >= 16 {
      WordByte(0x9669, 0x69, 0x96, j - 16);
      WordByte(0x6996, 0x96, 0x69, j - 16);
    }
  }

  // The table says whether the number of ones in a byte is even.
  lemma TableIsParity(x: nat)
    requires x < 0x100
    ensures TableParity(x) <==> EvenOnes(x, 8)
  {
    hide Bit, Ones, Shl, Shr, Pow2, And;
    var k, j := x / 32, x % 32;
    TableWord(k);
    WordBits(j);
    var word := PARITY_TAB[k];
    ShrBit(word, j, 0, j);
    assert Pow2(0) == 1 by { Pow2Values(); }
    MaskBit(Shr(word, j), 0);
    ShlIsProduct(k, 5);
    Pow2Values();
    OnesSplit(j, k, 5, 3, 8);
    assert x == Shl(k, 5) + j;
    assert Ones(x, 8) == Ones(j, 5) + Ones(k, 3);
    assert TableParity(x) <==> !Bit(word, j);
  }
}
