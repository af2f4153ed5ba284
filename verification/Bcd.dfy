// Packed decimal arithmetic: ADC with DAA, and SBB with DAS.
module Bcd {
  import opened Bits
  import opened X86
  import opened AddSub

  // A byte and its carry and adjust flags.
  datatype Adjusted = Adjusted(al: nat, cf: bool, af: bool)

  // Truncation to a byte.
  function Byte(x: int): (b: nat)
    ensures b < 0x100
  {
    x % 0x100
  }

  lemma ByteIs(x: int)
    requires -0x100 <= x < 0x200
    ensures Byte(x) == if x < 0 then x + 0x100 else if x >= 0x100 then x - 0x100 else x
  {
  }

  predicate LowAdjust(al: nat, af: bool) { al % 16 > 9 || af }

  // The DAA entry of the SDM.
  function SdmDaa(al: nat, cf: bool, af: bool): Adjusted
    requires al < 0x100
  {
    var low := LowAdjust(al, af);
    var a := if low then Byte(al + 6) else al;
    if al > 0x99 || cf then Adjusted(Byte(a + 0x60), true, low)
    else Adjusted(a, false, low)
  }

  // The DAS entry of the SDM; the first subtraction borrows when al is below 6.
  function SdmDas(al: nat, cf: bool, af: bool): Adjusted
    requires al < 0x100
  {
    var low := LowAdjust(al, af);
    var a := if low then Byte(al - 6) else al;
    if al > 0x99 || cf then Adjusted(Byte(a - 0x60), true, low)
    else Adjusted(a, low && al < 6, low)
  }

  // das_byte, whose second test looks at the byte after the first subtraction.
  function EmulatedDas(al: nat, cf: bool, af: bool): Adjusted
    requires al < 0x100
  {
    var low := LowAdjust(al, af);
    var a := if low then Byte(al - 6) else al;
    if a > 0x9F || cf then Adjusted(Byte(a - 0x60), true, low) else Adjusted(a, false, low)
  }

  // das_byte is DAS except, without a borrow and with the low digit adjusted, on the bytes
  // below 6 and from 0x9A to 0xA5.
  lemma DasMeetsSdmIff(al: nat, cf: bool, af: bool)
    requires al < 0x100
    ensures EmulatedDas(al, cf, af) == SdmDas(al, cf, af)
       <==> cf || !LowAdjust(al, af) || (6 <= al && !(0x9A <= al <= 0xA5))
  {
    hide Byte;
    ByteIs(al - 6);
    var a := if LowAdjust(al, af) then Byte(al - 6) else al;
    ByteIs(a - 0x60);
  }

  // With AL = 0 and the adjust flag set, the SDM borrows and gives 0xFA, das_byte 0x9A.
  lemma DasDiffersAtZero()
    ensures SdmDas(0, false, true) == Adjusted(0xFA, true, true)
    ensures EmulatedDas(0, false, true) == Adjusted(0x9A, true, true)
  {
    ByteIs(-6);
    ByteIs(0xFA - 0x60);
  }

  method Daa(m: Machine, d: nat) returns (r: nat)
    requires d < 0x100
    modifies m`cf, m`af, m`zf, m`sf, m`pf
    ensures Adjusted(r, m.cf, m.af) == SdmDaa(d, old(m.cf), old(m.af)) && ResultFlags(m, 8, r)
  {
    hide And, Low, TableParity, Ones, Byte, ResultFlags, Pow2;
    LowNibble(d);
    DaaTest(d);
    ByteIs(d);
    var res := d;
    if And(d, 0xf) > 9 || m.af {
      res := res + 6;
      m.af := true;
    }
    if res > 0x9F || m.cf {
      res := res + 0x60;
      m.cf := true;
    }
    Pow2Values();
    SetResultFlags(m, 8, res);
    LowByte(res);
    return Low(8, res);
  }

  // Testing the adjusted byte against 0x9F is testing the byte itself against 0x99.
  lemma DaaTest(d: nat)
    requires d < 0x100
    ensures d % 16 <= 9 ==> (d > 0x9F <==> d > 0x99)
    ensures Byte(Byte(d + 6) + 0x60) == Byte(d + 6 + 0x60)
  {
  }

  method Das(m: Machine, d0: nat) returns (d: nat)
    requires d0 < 0x100
    modifies m`cf, m`af, m`zf, m`sf, m`pf
    ensures Adjusted(d, m.cf, m.af) == EmulatedDas(d0, old(m.cf), old(m.af)) && ResultFlags(m, 8, d)
  {
    hide And, Low, TableParity, Ones, Byte, ResultFlags, Pow2;
    LowNibble(d0);
    d := d0;
    if And(d, 0xf) > 9 || m.af {
      d := Byte(d - 6);
      m.af := true;
    }
    if d > 0x9F || m.cf {
      d := Byte(d - 0x60);
      m.cf := true;
    }
    Pow2Values();
    SetResultFlags(m, 8, d);
    LowByte(d);
    ByteIs(d);
  }

  lemma LowNibble(d: nat)
    ensures And(d, 0xf) == d % 16
  {
    hide And;
    Pow2Values();
    MaskLow(d, 4);
  }

  lemma LowByte(d: nat)
    ensures Low(8, d) == Byte(d)
  {
    Pow2Values();
  }

  // ------------------------------------------------------------ decimal numbers

  predicate IsBcd(x: nat) { x % 16 <= 9 && x / 16 <= 9 }

  function BcdValue(x: nat): nat { x / 16 * 10 + x % 16 }

  predicate AllBcd(xs: seq<nat>) { forall i :: 0 <= i < |xs| ==> IsBcd(xs[i]) }

  // The number in bytes of two digits each, the lowest first.
  function Number(xs: seq<nat>): nat {
    if xs == [] then 0 else BcdValue(xs[0]) + 100 * Number(xs[1..])
  }

  function Hundred(n: nat): nat { if n == 0 then 1 else 100 * Hundred(n - 1) }

  function Flag(b: bool): nat { if b then 1 else 0 }

  // DAA after an addition of two decimal bytes and a carry.
  lemma DaaCorrects(a: nat, b: nat, c: nat, al: nat, cf: bool, af: bool)
    requires IsBcd(a) && IsBcd(b) && c <= 1
    requires al == Byte(a + b + c) && (cf <==> a + b + c >= 0x100) && (af <==> a % 16 + b % 16 + c >= 16)
    ensures var r := SdmDaa(al, cf, af);
            IsBcd(r.al) && BcdValue(r.al) + 100 * Flag(r.cf) == BcdValue(a) + BcdValue(b) + c
  {
    var ah, a0, bh, b0 := a / 16, a % 16, b / 16, b % 16;
    var h, t := ah + bh, a0 + b0 + c;
    assert a + b + c == 16 * h + t;
    DaaDigits(h, t, al, cf, af);
  }

  lemma TwoDigits(h: nat, t: nat, x: nat)
    requires h <= 9 && t <= 9 && x == 16 * h + t
    ensures IsBcd(x) && BcdValue(x) == 10 * h + t
  {
  }

  // The low digit of 16 * h + t in a byte.
  lemma LowDigit(h: int, t: int, al: nat)
    requires -16 <= t < 32 && (al == 16 * h + t || al == 16 * h + t + 0x100 || al == 16 * h + t - 0x100)
    ensures al % 16 == if t < 0 then t + 16 else if t >= 16 then t - 16 else t
  {
  }

  lemma DaaDigits(h: nat, t: nat, al: nat, cf: bool, af: bool)
    requires h <= 18 && t <= 19 && al == Byte(16 * h + t) && (cf <==> 16 * h + t >= 0x100) && (af <==> t >= 16)
    ensures var r := SdmDaa(al, cf, af);
            IsBcd(r.al) && BcdValue(r.al) + 100 * Flag(r.cf) == 10 * h + t
  {
    hide Byte;
    ByteIs(16 * h + t);
    LowDigit(h, t, al);
    ByteIs(al + 6);
    var a := if t >= 10 then Byte(al + 6) else al;
    ByteIs(a + 0x60);
    var h1, t1 := if t >= 10 then h + 1 else h, if t >= 10 then t - 10 else t;
    TwoDigits(if h1 >= 10 then h1 - 10 else h1, t1, SdmDaa(al, cf, af).al);
  }

  // DAS after a subtraction of two decimal bytes and a borrow.
  lemma DasCorrects(a: nat, b: nat, c: nat, al: nat, cf: bool, af: bool)
    requires IsBcd(a) && IsBcd(b) && c <= 1
    requires al == Byte(a - b - c) && (cf <==> a < b + c) && (af <==> a % 16 < b % 16 + c)
    ensures var r := EmulatedDas(al, cf, af);
            IsBcd(r.al) && BcdValue(r.al) + BcdValue(b) + c == BcdValue(a) + 100 * Flag(r.cf)
  {
    var h, t := a / 16 - b / 16, a % 16 - b % 16 - c;
    assert a - b - c == 16 * h + t;
    DasDigits(h, t, al, cf, af);
  }

  lemma DasDigits(h: int, t: int, al: nat, cf: bool, af: bool)
    requires -9 <= h <= 9 && -10 <= t <= 9 && al == Byte(16 * h + t)
    requires (cf <==> 16 * h + t < 0) && (af <==> t < 0)
    ensures var r := EmulatedDas(al, cf, af);
            IsBcd(r.al) && BcdValue(r.al) == 10 * h + t + 100 * Flag(r.cf)
  {
    hide Byte;
    ByteIs(16 * h + t);
    LowDigit(h, t, al);
    ByteIs(al - 6);
    var a := if t < 0 then Byte(al - 6) else al;
    ByteIs(a - 0x60);
    var h1, t1 := if t < 0 then h - 1 else h, if t < 0 then t + 10 else t;
    TwoDigits(if h1 < 0 then h1 + 10 else h1, t1, EmulatedDas(al, cf, af).al);
  }

  // There das_byte does what DAS does.
  lemma DasAgreesOnDecimals(a: nat, b: nat, c: nat, al: nat, cf: bool, af: bool)
    requires IsBcd(a) && IsBcd(b) && c <= 1
    requires al == Byte(a - b - c) && (cf <==> a < b + c) && (af <==> a % 16 < b % 16 + c)
    ensures EmulatedDas(al, cf, af) == SdmDas(al, cf, af)
  {
    hide Byte, EmulatedDas, SdmDas;
    DasMeetsSdmIff(al, cf, af);
    var h, t := a / 16 - b / 16, a % 16 - b % 16 - c;
    assert a - b - c == 16 * h + t;
    ByteIs(16 * h + t);
    LowDigit(h, t, al);
  }

  // ADC and DAA over the bytes of two decimal numbers: the exact sum and its carry.
  method AddDecimal(m: Machine, a: seq<nat>, b: seq<nat>) returns (r: seq<nat>)
    requires |a| == |b| && AllBcd(a) && AllBcd(b)
    modifies m`cf, m`af, m`zf, m`sf, m`pf, m`of
    ensures |r| == |a| && AllBcd(r)
    ensures Number(r) + Flag(m.cf) * Hundred(|a|) == Number(a) + Number(b) + old(Flag(m.cf))
  {
    r := [];
    var i := 0;
    NumberSlices(a, b);
    while i < |a|
      invariant 0 <= i <= |a| && |r| == i && AllBcd(r)
      invariant Number(r) + Flag(m.cf) * Hundred(i) == Number(a[..i]) + Number(b[..i]) + old(Flag(m.cf))
    {
      ghost var c := Flag(m.cf);
      var x := AddByte(m, a[i], b[i]);
      NextByte(a, i);
      NextByte(b, i);
      Appended(r, x);
      CarryOn(Hundred(i), BcdValue(x), BcdValue(a[i]), BcdValue(b[i]), c, Flag(m.cf));
      r := r + [x];
      i := i + 1;
    }
    assert a[..i] == a && b[..i] == b;
  }

  method AddByte(m: Machine, a: nat, b: nat) returns (x: nat)
    requires IsBcd(a) && IsBcd(b)
    modifies m`cf, m`af, m`zf, m`sf, m`pf, m`of
    ensures IsBcd(x) && BcdValue(x) + 100 * Flag(m.cf) == BcdValue(a) + BcdValue(b) + old(Flag(m.cf))
  {
    hide SdmDaa, BcdValue, IsBcd;
    BcdFits(a);
    BcdFits(b);
    Pow2Values();
    ghost var c := Flag(m.cf);
    x := AdcNarrow(m, 8, a, b);
    DaaCorrects(a, b, c, x, m.cf, m.af);
    x := Daa(m, x);
  }

  // SBB and DAS over the bytes of two decimal numbers: the exact difference and its borrow.
  method SubDecimal(m: Machine, a: seq<nat>, b: seq<nat>) returns (r: seq<nat>)
    requires |a| == |b| && AllBcd(a) && AllBcd(b)
    modifies m`cf, m`af, m`zf, m`sf, m`pf, m`of
    ensures |r| == |a| && AllBcd(r)
    ensures Number(r) + Number(b) + old(Flag(m.cf)) == Number(a) + Flag(m.cf) * Hundred(|a|)
  {
    r := [];
    var i := 0;
    NumberSlices(a, b);
    while i < |a|
      invariant 0 <= i <= |a| && |r| == i && AllBcd(r)
      invariant Number(r) + Number(b[..i]) + old(Flag(m.cf)) == Number(a[..i]) + Flag(m.cf) * Hundred(i)
    {
      ghost var c := Flag(m.cf);
      var x := SubByte(m, a[i], b[i]);
      NextByte(a, i);
      NextByte(b, i);
      Appended(r, x);
      BorrowOn(Hundred(i), BcdValue(x), BcdValue(a[i]), BcdValue(b[i]), c, Flag(m.cf));
      r := r + [x];
      i := i + 1;
    }
    assert a[..i] == a && b[..i] == b;
  }

  method SubByte(m: Machine, a: nat, b: nat) returns (x: nat)
    requires IsBcd(a) && IsBcd(b)
    modifies m`cf, m`af, m`zf, m`sf, m`pf, m`of
    ensures IsBcd(x) && BcdValue(x) + BcdValue(b) + old(Flag(m.cf)) == BcdValue(a) + 100 * Flag(m.cf)
  {
    hide EmulatedDas, BcdValue, IsBcd;
    BcdFits(a);
    BcdFits(b);
    Pow2Values();
    ghost var c := Flag(m.cf);
    x := Sbb(m, 8, a, b);
    DasCorrects(a, b, c, x, m.cf, m.af);
    x := Das(m, x);
  }

  lemma BcdFits(x: nat)
    requires IsBcd(x)
    ensures x < 0x100
  {
  }

  lemma NumberSlices(a: seq<nat>, b: seq<nat>)
    ensures Number(a[..0]) == 0 && Number(b[..0]) == 0 && Hundred(0) == 1
  {
  }

  lemma {:induction false} Appended(xs: seq<nat>, x: nat)
    ensures Number(xs + [x]) == Number(xs) + Hundred(|xs|) * BcdValue(x)
  {
    if xs == [] {
      assert xs + [x] == [x] && [x][1..] == [];
    } else {
      assert (xs + [x])[1..] == xs[1..] + [x];
      Appended(xs[1..], x);
      Scaled(Hundred(|xs| - 1), BcdValue(x));
    }
  }

  lemma Scaled(h: nat, d: nat)
    ensures 100 * (h * d) == (100 * h) * d
  {
  }

  lemma NextByte(xs: seq<nat>, i: nat)
    requires i < |xs|
    ensures Number(xs[..i + 1]) == Number(xs[..i]) + Hundred(i) * BcdValue(xs[i])
  {
    assert xs[..i + 1] == xs[..i] + [xs[i]];
    Appended(xs[..i], xs[i]);
  }

  lemma CarryOn(h: nat, x: nat, a: nat, b: nat, c: nat, c1: nat)
    requires x + 100 * c1 == a + b + c
    ensures h * x + c1 * (100 * h) == h * a + h * b + c * h
  {
    assert h * (x + 100 * c1) == h * x + h * (100 * c1);
    assert h * (a + b + c) == h * a + h * b + h * c;
    assert h * (100 * c1) == c1 * (100 * h);
  }

  lemma BorrowOn(h: nat, x: nat, a: nat, b: nat, c: nat, c1: nat)
    requires x + b + c == a + 100 * c1
    ensures h * x + h * b + c * h == h * a + c1 * (100 * h)
  {
    assert h * (x + b + c) == h * x + h * b + h * c;
    assert h * (a + 100 * c1) == h * a + h * (100 * c1);
    assert h * (100 * c1) == c1 * (100 * h);
  }
}
