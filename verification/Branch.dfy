// The conditional jumps and byte sets of the two-byte opcodes, after a comparison.
module Branch {
  import opened Bits
  import opened X86
  import opened AddSub

  // The macro xorl.
  predicate Xorl(a: bool, b: bool) { (a && !b) || (!a && b) }

  // The switch on the low four bits of the opcode, shared by 0x80-0x8f and 0x90-0x9f.
  ghost predicate Condition(m: Machine, code: nat)
    requires code < 16
    reads m
  {
    if code == 0x0 then m.of
    else if code == 0x1 then !m.of
    else if code == 0x2 then m.cf
    else if code == 0x3 then !m.cf
    else if code == 0x4 then m.zf
    else if code == 0x5 then !m.zf
    else if code == 0x6 then m.cf || m.zf
    else if code == 0x7 then !(m.cf || m.zf)
    else if code == 0x8 then m.sf
    else if code == 0x9 then !m.sf
    else if code == 0xa then m.pf
    else if code == 0xb then !m.pf
    else if code == 0xc then Xorl(m.sf, m.of)
    else if code == 0xd then Xorl(m.sf, m.of)
    else if code == 0xe then Xorl(m.sf, m.of) || m.zf
    else !(Xorl(m.sf, m.of) || m.zf)
  }

  method Decide(m: Machine, op2: nat) returns (cond: bool)
    requires 0x80 <= op2 < 0xa0
    ensures cond <==> Condition(m, op2 % 16)
  {
    cond := false;
    match op2 % 16 {
      case 0x0 => cond := m.of;
      case 0x1 => cond := !m.of;
      case 0x2 => cond := m.cf;
      case 0x3 => cond := !m.cf;
      case 0x4 => cond := m.zf;
      case 0x5 => cond := !m.zf;
      case 0x6 => cond := m.cf || m.zf;
      case 0x7 => cond := !(m.cf || m.zf);
      case 0x8 => cond := m.sf;
      case 0x9 => cond := !m.sf;
      case 0xa => cond := m.pf;
      case 0xb => cond := !m.pf;
      case 0xc => cond := Xorl(m.sf, m.of);
      case 0xd => cond := Xorl(m.sf, m.of);
      case 0xe => cond := Xorl(m.sf, m.of) || m.zf;
      case _ => cond := !(Xorl(m.sf, m.of) || m.zf);
    }
  }

  // x86emuOp2_long_jump; `imm` is the word that fetch_word_imm reads at IP.
  method LongJump(m: Machine, op2: nat, imm: nat)
    requires 0x80 <= op2 < 0x90 && imm < Pow2(16) && m.ip < Pow2(16)
    modifies m`ip
    ensures m.ip == Low(16, old(m.ip) + 2 + if old(Condition(m, op2 % 16)) then Signed(16, imm) else 0)
  {
    hide Low, Signed, Pow2, Condition;
    var cond := Decide(m, op2);
    ghost var start := m.ip;
    m.ip := Low(16, m.ip + 2);
    var target := Signed(16, imm);
    target := target + Signed(16, m.ip);
    Target(start, imm, m.ip, target);
    if cond { m.ip := Low(16, target); }
  }

  // Where an operand is stored, as the addressing byte decodes to.
  datatype Place = Register(number: nat) | Memory(address: nat)

  // Register n or memory byte a holds b, and nothing else has changed.
  twostate predicate Stored(m: Machine, dest: Place, b: nat)
    requires dest.Register? ==> dest.number < |old(m.registers)|
    reads m
  {
    match dest
    case Register(n) => m.registers == old(m.registers)[n := b] && m.memory == old(m.memory)
    case Memory(a) => m.registers == old(m.registers) && m.memory == old(m.memory)[a := b]
  }

  // x86emuOp2_set_byte, from the decoded destination on.
  method SetByte(m: Machine, op2: nat, dest: Place)
    requires 0x90 <= op2 < 0xa0 && (dest.Register? ==> dest.number < |m.registers|)
    modifies m`registers, m`memory
    ensures Stored(m, dest, if old(Condition(m, op2 % 16)) then 1 else 0)
  {
    var cond := Decide(m, op2);
    match dest {
      case Register(n) => m.registers := m.registers[n := if cond then 0x01 else 0x00];
      case Memory(a) => m.memory := m.memory[a := if cond then 0x01 else 0x00];
    }
  }

  // What each condition says of the operands compared before, after the SDM.
  predicate Relation(code: nat, w: nat, d: nat, s: nat)
    requires code < 16 && w >= 1
  {
    if code == 0x0 then !InSigned(w, Signed(w, d) - Signed(w, s))
    else if code == 0x1 then InSigned(w, Signed(w, d) - Signed(w, s))
    else if code == 0x2 then d < s
    else if code == 0x3 then d >= s
    else if code == 0x4 then d == s
    else if code == 0x5 then d != s
    else if code == 0x6 then d <= s
    else if code == 0x7 then d > s
    else if code == 0x8 then Signed(w, Low(w, d - s)) < 0
    else if code == 0x9 then Signed(w, Low(w, d - s)) >= 0
    else if code == 0xa then EvenOnes(Low(w, d - s), 8)
    else if code == 0xb then !EvenOnes(Low(w, d - s), 8)
    else if code == 0xc then Signed(w, d) < Signed(w, s)
    else if code == 0xd then Signed(w, d) >= Signed(w, s)
    else if code == 0xe then Signed(w, d) <= Signed(w, s)
    else Signed(w, d) > Signed(w, s)
  }

  // A comparison and a jump on its flags.
  method CompareAndJump(m: Machine, w: nat, d: nat, s: nat, op2: nat, imm: nat)
    requires Width(w) && d < Pow2(w) && s < Pow2(w)
    requires 0x80 <= op2 < 0x90 && imm < Pow2(16) && m.ip < Pow2(16)
    modifies m`cf, m`zf, m`sf, m`pf, m`of, m`af, m`ip
    ensures op2 != 0x8d ==>
              m.ip == Low(16, old(m.ip) + 2 + if Relation(op2 % 16, w, d, s) then Signed(16, imm) else 0)
    ensures op2 == 0x8d ==>
              m.ip == Low(16, old(m.ip) + 2 + if Relation(op2 % 16, w, d, s) then 0 else Signed(16, imm))
  {
    hide Relation, Condition, Low, Signed, InSigned, Pow2, DifferenceFlags;
    var _ := Cmp(m, w, d, s);
    ConditionIs(m, w, d, s, op2 % 16);
    LongJump(m, op2, imm);
  }

  // A comparison and a byte set by its flags: 1 if the relation holds, for SETNL if it fails.
  method CompareAndSet(m: Machine, w: nat, d: nat, s: nat, op2: nat, dest: Place)
    requires Width(w) && d < Pow2(w) && s < Pow2(w)
    requires 0x90 <= op2 < 0xa0 && (dest.Register? ==> dest.number < |m.registers|)
    modifies m`cf, m`zf, m`sf, m`pf, m`of, m`af, m`registers, m`memory
    ensures Stored(m, dest, if Relation(op2 % 16, w, d, s) <==> op2 != 0x9d then 1 else 0)
  {
    hide Relation, Condition, Low, Signed, InSigned, Pow2, DifferenceFlags;
    var _ := Cmp(m, w, d, s);
    ConditionIs(m, w, d, s, op2 % 16);
    SetByte(m, op2, dest);
  }

  // A difference of words and its signed difference.
  lemma SignOfDifference(w: nat, d: nat, s: nat, r: nat)
    requires w >= 1 && d < Pow2(w) && s < Pow2(w) && r == Low(w, d - s)
    ensures r == if d >= s then d - s else d - s + Pow2(w)
    ensures (r >= Pow2(w - 1)) != !InSigned(w, Signed(w, d) - Signed(w, s)) <==> Signed(w, d) < Signed(w, s)
    ensures r == 0 <==> d == s
    ensures r >= Pow2(w - 1) <==> Signed(w, r) < 0
    ensures Signed(w, d) == Signed(w, s) <==> d == s
  {
    if d >= s { Residue(d - s, Pow2(w), d - s, 0); }
    else { Residue(d - s, Pow2(w), d - s + Pow2(w), -1); }
  }

  // After a comparison every condition holds exactly when its relation does, except that
  // of JNL and SETNL, which holds exactly when its relation fails.
  lemma ConditionIs(m: Machine, w: nat, d: nat, s: nat, code: nat)
    requires Width(w) && d < Pow2(w) && s < Pow2(w) && code < 16
    requires (m.cf <==> d < s) && DifferenceFlags(m, w, d, s, 0, Low(w, d - s))
    ensures code != 0xd ==> (Condition(m, code) <==> Relation(code, w, d, s))
    ensures code == 0xd ==> (Condition(m, code) <==> !Relation(code, w, d, s))
  {
    hide Low, Signed, InSigned, Pow2, EvenOnes;
    SignOfDifference(w, d, s, Low(w, d - s));
  }

  lemma Target(start: nat, imm: nat, ip: nat, target: int)
    requires start < Pow2(16) && imm < Pow2(16) && ip == Low(16, start + 2)
    requires target == Signed(16, imm) + Signed(16, ip)
    ensures Low(16, target) == Low(16, start + 2 + Signed(16, imm))
  {
    Pow2Values();
    var n := start + 2 + Signed(16, imm);
    assert Signed(16, ip) == start + 2 || Signed(16, ip) == start + 2 - 0x1_0000;
    Residue(target, 0x1_0000, target % 0x1_0000, target / 0x1_0000);
    assert n == target || n == target + 0x1_0000;
    Residue(n, 0x1_0000, target % 0x1_0000, if n == target then target / 0x1_0000 else target / 0x1_0000 + 1);
  }
}
