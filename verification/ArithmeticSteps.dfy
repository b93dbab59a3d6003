/**
 Steps of the VM for register and immediate instructions: sums and products,
 quotients, single bits, shifts and comparisons, in the arithmetic of the integers.
 */
module ArithmeticSteps {
  import opened Words
  import opened Alu
  import opened LoadStoreBytes
  import opened Cpu
  import opened VmHistory
  import opened Instructions
  import opened Wrappers

  // ----- Bits -----

  // Bit i of a number is set.
  predicate Bit(x: nat, i: nat) {
    x / Pow2(i) % 2 == 1
  }

  lemma HalfQuotient(x: int, p: nat)
    requires p > 0
    ensures x / 2 / p == x / (2 * p)
  {
    var q, r := x / (2 * p), x % (2 * p);
    assert x == 2 * (p * q) + r && x / 2 == p * q + r / 2 && r / 2 < p;
    QuotientIs(x / 2, p, q, r / 2);
  }

  lemma QuotientIs(x: int, p: nat, q: int, r: nat)
    requires p > 0 && x == p * q + r && r < p
    ensures x / p == q && x % p == r
  {
    var d := x / p - q;
    assert p * d == r - x % p;
    assert (d >= 1 ==> p * d >= p) && (d <= -1 ==> p * d + p <= 0);
  }

  lemma {:induction false} ShiftRightIs(x: nat, d: nat)
    ensures ShiftRight(x, d) == x / Pow2(d)
    decreases d
  {
    if d > 0 {
      ShiftRightIs(x / 2, d - 1);
      HalfQuotient(x, Pow2(d - 1));
    }
  }

  lemma {:induction false} ShiftLeftIs(x: nat, d: nat)
    ensures ShiftLeft(x, d) == x * Pow2(d)
    decreases d
  {
    if d > 0 {
      ShiftLeftIs(x, d - 1);
    }
  }

  lemma BitNext(x: nat, i: nat)
    ensures (Bit(x, 0) <==> x % 2 == 1) && (Bit(x, i + 1) <==> Bit(x / 2, i))
  {
    HalfQuotient(x, Pow2(i));
  }

  lemma {:induction false} BitsOfAnd(x: nat, y: nat, n: nat, i: nat)
    requires i < n
    ensures Bit(AndBits(x, y, n), i) <==> Bit(x, i) && Bit(y, i)
    decreases n
  {
    hide Bit;
    if i > 0 {
      BitsOfAnd(x / 2, y / 2, n - 1, i - 1);
    }
    var j := if i > 0 then i - 1 else 0;
    BitNext(x, j);
    BitNext(y, j);
    BitNext(AndBits(x, y, n), j);
  }

  lemma {:induction false} BitsOfOr(x: nat, y: nat, n: nat, i: nat)
    requires i < n
    ensures Bit(OrBits(x, y, n), i) <==> Bit(x, i) || Bit(y, i)
    decreases n
  {
    hide Bit;
    if i > 0 {
      BitsOfOr(x / 2, y / 2, n - 1, i - 1);
    }
    var j := if i > 0 then i - 1 else 0;
    BitNext(x, j);
    BitNext(y, j);
    BitNext(OrBits(x, y, n), j);
  }

  lemma {:induction false} BitsOfXor(x: nat, y: nat, n: nat, i: nat)
    requires i < n
    ensures Bit(XorBits(x, y, n), i) <==> Bit(x, i) != Bit(y, i)
    decreases n
  {
    hide Bit;
    if i > 0 {
      BitsOfXor(x / 2, y / 2, n - 1, i - 1);
    }
    var j := if i > 0 then i - 1 else 0;
    BitNext(x, j);
    BitNext(y, j);
    BitNext(XorBits(x, y, n), j);
  }

  lemma {:induction false} BitsOfComplement(x: nat, n: nat, i: nat)
    requires i < n && x < Pow2(n)
    ensures Bit(Pow2(n) - 1 - x, i) <==> !Bit(x, i)
    decreases n
  {
    hide Bit;
    var y: nat := Pow2(n) - 1 - x;
    assert Pow2(n) == 2 * Pow2(n - 1) && y / 2 == Pow2(n - 1) - 1 - x / 2;
    if i > 0 {
      BitsOfComplement(x / 2, n - 1, i - 1);
    }
    var j := if i > 0 then i - 1 else 0;
    BitNext(x, j);
    BitNext(y, j);
  }

  // Bit by bit what and, or, xor and nor do.
  ghost predicate Combines(fun: Six, a: Word, b: Word, v: Word) {
    forall i :: 0 <= i < 32 ==>
      (Bit(v, i) <==>
        match fun
        case 0x24 => Bit(a, i) && Bit(b, i)
        case 0x25 => Bit(a, i) || Bit(b, i)
        case 0x26 => Bit(a, i) != Bit(b, i)
        case _ => !Bit(a, i) && !Bit(b, i))
  }

  lemma BitwiseMeaning(a: Word, b: Word)
    ensures Combines(0x24, a, b, And(a, b)) && Combines(0x25, a, b, Or(a, b))
    ensures Combines(0x26, a, b, Xor(a, b)) && Combines(0x27, a, b, Not(Or(a, b)))
  {
    hide Bit, AndBits, OrBits, XorBits, Pow2;
    WordBits();
    forall i | 0 <= i < 32
      ensures Bit(And(a, b), i) <==> Bit(a, i) && Bit(b, i)
      ensures Bit(Or(a, b), i) <==> Bit(a, i) || Bit(b, i)
      ensures Bit(Xor(a, b), i) <==> Bit(a, i) != Bit(b, i)
      ensures Bit(Not(Or(a, b)), i) <==> !Bit(Or(a, b), i)
    {
      BitsOfAnd(a, b, 32, i);
      BitsOfOr(a, b, 32, i);
      BitsOfXor(a, b, 32, i);
      BitsOfComplement(Or(a, b), 32, i);
    }
  }

  // ----- Register instructions -----

  // The step writes v to register d and does nothing else.
  ghost predicate Writes(oracle: Oracle, vm: Vm, d: Reg, v: Word) {
    StepVm(oracle, vm) == Some(Retired(vm, Put(vm.cpu.regs, d, v)))
  }

  /** add, addu, sub, subu */
  lemma SumStep(oracle: Oracle, vm: Vm, s: Reg, t: Reg, d: Reg, sh: Reg, fun: Six)
    requires NextIsR(vm, 0, s, t, d, sh, fun) && fun in {0x20, 0x21, 0x22, 0x23}
    ensures var a, b := vm.cpu.regs[s], vm.cpu.regs[t];
      Writes(oracle, vm, d, (if fun < 0x22 then a + b else a - b) % WORD_RANGE)
  {
    hide StepVm, NextInsn, NextIsR, Opcode, Funct;
    DecodedR(vm, 0, s, t, d, sh, fun);
    RegisterStep(oracle, vm, 0, s, t, d, sh, fun);
  }

  /** and, or, xor, nor */
  lemma BitwiseStep(oracle: Oracle, vm: Vm, s: Reg, t: Reg, d: Reg, sh: Reg, fun: Six) returns (v: Word)
    requires NextIsR(vm, 0, s, t, d, sh, fun) && 0x24 <= fun <= 0x27
    ensures Writes(oracle, vm, d, v) && Combines(fun, vm.cpu.regs[s], vm.cpu.regs[t], v)
  {
    hide StepVm, NextInsn, NextIsR, Opcode, Funct, Combines, And, Or, Xor, Not;
    DecodedR(vm, 0, s, t, d, sh, fun);
    RegisterStep(oracle, vm, 0, s, t, d, sh, fun);
    BitwiseMeaning(vm.cpu.regs[s], vm.cpu.regs[t]);
    v := Special(NextInsn(vm).value, vm.cpu.regs[s], vm.cpu.regs[t]).value;
  }

  /** slt, sltu */
  lemma CompareStep(oracle: Oracle, vm: Vm, s: Reg, t: Reg, d: Reg, sh: Reg, fun: Six)
    requires NextIsR(vm, 0, s, t, d, sh, fun) && fun in {0x2a, 0x2b}
    ensures var a, b := vm.cpu.regs[s], vm.cpu.regs[t];
      var less := if fun == 0x2b then a < b else (a + 0x8000_0000) % WORD_RANGE < (b + 0x8000_0000) % WORD_RANGE;
      Writes(oracle, vm, d, if less then 1 else 0)
  {
    hide StepVm, NextInsn, NextIsR, Opcode, Funct;
    DecodedR(vm, 0, s, t, d, sh, fun);
    RegisterStep(oracle, vm, 0, s, t, d, sh, fun);
  }

  // How far a shift instruction shifts: by the field of the instruction or by a register, of which srav takes all.
  function Amount(fun: Six, sh: Reg, a: Word): Word {
    if fun < 4 then sh else if fun == 7 then a else a % 32
  }

  /** sll, srl, sra, sllv, srlv, srav */
  lemma ShiftStep(oracle: Oracle, vm: Vm, s: Reg, t: Reg, d: Reg, sh: Reg, fun: Six) returns (v: Word)
    requires NextIsR(vm, 0, s, t, d, sh, fun) && fun in {0, 2, 3, 4, 6, 7}
    ensures Writes(oracle, vm, d, v)
    ensures var b, k := vm.cpu.regs[t], Amount(fun, sh, vm.cpu.regs[s]);
      match fun % 4
      case 0 => v == b * Pow2(k) % WORD_RANGE
      case 2 => v == b / Pow2(k)
      case _ => if k < 32 then Signed(v) == Signed(b) / Pow2(k) else v == 0
  {
    hide StepVm, NextInsn, NextIsR, Opcode, Funct, Shamt, Pow2, Shl, Shr, SE, Signed, Special, Special2, Sub, Amount;
    DecodedR(vm, 0, s, t, d, sh, fun);
    var insn, a, b := NextInsn(vm).value, vm.cpu.regs[s], vm.cpu.regs[t];
    var k := Amount(fun, sh, a);
    RegisterStep(oracle, vm, 0, s, t, d, sh, fun);
    ShiftIs(insn, a, b);
    v := Special(insn, a, b).value;
    ShiftMeaning(b, k);
  }

  lemma ShiftIs(insn: Word, a: Word, b: Word)
    requires Opcode(insn) == 0 && Funct(insn) in {0, 2, 3, 4, 6, 7}
    ensures var fun := Funct(insn); var k := Amount(fun, Shamt(insn), a);
      && (fun in {0, 4} ==> Special(insn, a, b) == Some(Shl(b, k)) && k < 32)
      && (fun in {2, 6} ==> Special(insn, a, b) == Some(Shr(b, k)) && k < 32)
      && (fun in {3, 7} ==> Special(insn, a, b) == Some(SE(Shr(b, k), Sub(32, k))))
  {
    hide SE, Shl, Shr;
  }

  lemma ShiftMeaning(b: Word, k: Word)
    ensures k < 32 ==> Shl(b, k) == b * Pow2(k) % WORD_RANGE && Shr(b, k) == b / Pow2(k)
    ensures if k < 32 then Signed(SE(Shr(b, k), Sub(32, k))) == Signed(b) / Pow2(k) else SE(Shr(b, k), Sub(32, k)) == 0
  {
    hide Pow2, ShiftLeft, ShiftRight, SE, Signed, Asr;
    ShiftLeftIs(b, k);
    ShiftRightIs(b, k);
    if k < 32 {
      ArithmeticShift(b, k);
      AsrIs(Signed(b), k);
    } else {
      SravOfLargeAmount(b, k);
    }
  }

  lemma {:induction false} AsrIs(x: int, d: nat)
    ensures Asr(x, d) == x / Pow2(d)
    decreases d
  {
    if d > 0 {
      AsrIs(x / 2, d - 1);
      HalfQuotient(x, Pow2(d - 1));
    }
  }

  /** mul, clz, clo */
  lemma SpecialStep(oracle: Oracle, vm: Vm, s: Reg, t: Reg, d: Reg, sh: Reg, fun: Six) returns (v: Word)
    requires NextIsR(vm, 0x1c, s, t, d, sh, fun) && fun in {2, 0x20, 0x21}
    ensures Writes(oracle, vm, d, v)
    ensures var a, b := vm.cpu.regs[s], vm.cpu.regs[t];
      match fun
      case 2 => v == a * b % WORD_RANGE
      case 0x20 => v <= 32 && a < Pow2(32 - v) && (v < 32 ==> a >= Pow2(31 - v))
      case _ => v <= 32 && WORD_RANGE - a <= Pow2(32 - v) && (v < 32 ==> WORD_RANGE - a > Pow2(31 - v))
  {
    hide StepVm, NextInsn, NextIsR, Opcode, Funct, Pow2, LeadingOnes, Signed;
    DecodedR(vm, 0x1c, s, t, d, sh, fun);
    RegisterStep(oracle, vm, 0x1c, s, t, d, sh, fun);
    var a, b := vm.cpu.regs[s], vm.cpu.regs[t];
    v := Special2(NextInsn(vm).value, a, b).value;
    WordBits();
    LeadingOnesMeaning(a, 32);
    LeadingOnesMeaning(Not(a), 32);
    ProductIs(a, b);
  }

  // Signed or not, the low 32 bits of a product are the same.
  lemma ProductIs(a: Word, b: Word)
    ensures Signed(a) * Signed(b) % WORD_RANGE == a * b % WORD_RANGE
  {
    var i, j := if a < 0x8000_0000 then 0 else 1, if b < 0x8000_0000 then 0 else 1;
    var k: int := i * j * WORD_RANGE - a * j - b * i;
    assert Signed(a) == a - i * WORD_RANGE && Signed(b) == b - j * WORD_RANGE;
    assert Signed(a) * Signed(b) == a * b + k * WORD_RANGE;
    SameRest(a * b, k);
  }

  lemma SameRest(x: int, k: int)
    ensures (x + k * WORD_RANGE) % WORD_RANGE == x % WORD_RANGE
  {
  }

  // ----- Immediates -----

  lemma ImmediateIs(imm: Imm)
    ensures SE(imm, 16) == SignedImm(imm) % WORD_RANGE && Signed(SE(imm, 16)) == SignedImm(imm)
  {
    hide SE;
    SignedHalf(imm);
  }

  /** addi, addiu, slti, sltiu, andi, ori, xori, lui */
  lemma ImmediateArithmetic(oracle: Oracle, vm: Vm, op: Six, s: Reg, t: Reg, imm: Imm) returns (v: Word)
    requires NextIsI(vm, op, s, t, imm) && 8 <= op < 0x10
    ensures Writes(oracle, vm, t, v)
    ensures var a := vm.cpu.regs[s];
      match op
      case 0xa => v == if Signed(a) < SignedImm(imm) then 1 else 0
      case 0xb => v == if a < SignedImm(imm) % WORD_RANGE then 1 else 0
      case 0xc => Combines(0x24, a, imm, v)
      case 0xd => Combines(0x25, a, imm, v)
      case 0xe => Combines(0x26, a, imm, v)
      case 0xf => v == imm * 0x1_0000
      case _ => v == (a + SignedImm(imm)) % WORD_RANGE
  {
    hide StepVm, NextInsn, NextIsI, Opcode, Funct, Combines, SE, Signed, SignedImm, And, Or, Xor, Shl;
    DecodedI(vm, op, s, t, imm);
    ImmediateStep(oracle, vm, op, s, t, imm);
    var a, b := vm.cpu.regs[s], if op in {0xc, 0xd, 0xe} then imm else SE(imm, 16);
    v := Execute(NextInsn(vm).value, a, b, 0).value;
    ImmediateIs(imm);
    BitwiseMeaning(a, imm);
    UpperHalf(imm);
    SumOfRest(a, SignedImm(imm));
  }

  lemma SumOfRest(a: Word, x: int)
    ensures (a + x % WORD_RANGE) % WORD_RANGE == (a + x) % WORD_RANGE
  {
  }

  lemma UpperHalf(imm: Imm)
    ensures Shl(SE(imm, 16), 16) == imm * 0x1_0000
  {
    hide SE;
    ImmediateIs(imm);
    OneByBytes();
    ShiftLeftIs(SE(imm, 16), 16);
    RestTimes(imm);
  }

  lemma RestTimes(imm: Imm)
    ensures SignedImm(imm) % WORD_RANGE * 0x1_0000 % WORD_RANGE == imm * 0x1_0000
  {
  }

  // ----- hi and lo -----

  // The step leaves these in hi and lo, and v in register d.
  ghost predicate LeavesHiLo(oracle: Oracle, vm: Vm, d: Reg, v: Word, hi: Word, lo: Word) {
    var w := Retired(vm, Put(vm.cpu.regs, d, v));
    StepVm(oracle, vm) == Some(w.(cpu := w.cpu.(hi := hi, lo := lo)))
  }

  lemma HiLoStep(oracle: Oracle, vm: Vm, s: Reg, t: Reg, d: Reg, sh: Reg, fun: Six)
    requires NextIsR(vm, 0, s, t, d, sh, fun) && (0x10 <= fun <= 0x13 || 0x18 <= fun <= 0x1b)
    ensures var r := HiLo(Ticked(vm.cpu), fun, vm.cpu.regs[s], vm.cpu.regs[t], d);
      StepVm(oracle, vm) == if r.None? then None else Some(vm.(cpu := r.value))
  {
    hide StepVm, NextInsn, NextIsR, Opcode, Funct, RsReg, RtReg, RdReg, HiLo, Jump, Syscall, MemOp, Branch;
    DecodedR(vm, 0, s, t, d, sh, fun);
    var insn := NextInsn(vm).value;
    assert Execute(insn, vm.cpu.regs[s], vm.cpu.regs[t], 0).Some?;
    PlainStep(oracle, vm, insn, Exec(oracle, Ticked(vm.cpu), vm.cache, insn, 0));
  }

  /** mfhi, mthi, mflo, mtlo; the last two of the forms also clear register d. */
  lemma HiLoMoveStep(oracle: Oracle, vm: Vm, s: Reg, t: Reg, d: Reg, sh: Reg, fun: Six)
    requires NextIsR(vm, 0, s, t, d, sh, fun) && 0x10 <= fun <= 0x13
    ensures var a, hi, lo := vm.cpu.regs[s], vm.cpu.hi, vm.cpu.lo;
      match fun
      case 0x10 => LeavesHiLo(oracle, vm, d, hi, hi, lo)
      case 0x11 => LeavesHiLo(oracle, vm, d, 0, a, lo)
      case 0x12 => LeavesHiLo(oracle, vm, d, lo, hi, lo)
      case _ => LeavesHiLo(oracle, vm, d, 0, hi, a)
  {
    hide StepVm, NextInsn, NextIsR;
    HiLoStep(oracle, vm, s, t, d, sh, fun);
  }

  // hi and lo are the two halves of the product, signed or not.
  predicate IsProduct(signed: bool, a: Word, b: Word, hi: Word, lo: Word) {
    if signed then Signed(hi) * WORD_RANGE + lo == Signed(a) * Signed(b) else hi * WORD_RANGE + lo == a * b
  }

  /** mult, multu */
  lemma ProductStep(oracle: Oracle, vm: Vm, s: Reg, t: Reg, d: Reg, sh: Reg, fun: Six) returns (hi: Word, lo: Word)
    requires NextIsR(vm, 0, s, t, d, sh, fun) && fun in {0x18, 0x19}
    ensures LeavesHiLo(oracle, vm, d, 0, hi, lo)
    ensures IsProduct(fun == 0x18, vm.cpu.regs[s], vm.cpu.regs[t], hi, lo)
  {
    hide StepVm, NextInsn, NextIsR, Signed, IsProduct, Trunc;
    HiLoStep(oracle, vm, s, t, d, sh, fun);
    var a, b := vm.cpu.regs[s], vm.cpu.regs[t];
    var x: int, y: int := a, b;
    var acc := if fun == 0x18 then Signed(a) * Signed(b) else x * y;
    hi, lo := Trunc(acc / WORD_RANGE), Trunc(acc);
    if fun == 0x18 {
      SignedHalves(a, b);
    } else {
      Halves(a, b);
    }
  }

  lemma SignedHalves(a: Word, b: Word)
    ensures var acc := Signed(a) * Signed(b); IsProduct(true, a, b, Trunc(acc / WORD_RANGE), Trunc(acc))
  {
    var x, y, m := Signed(a), Signed(b), 0x8000_0000;
    Bounded(x, y, m);
    HalvesJoin(x * y);
  }

  lemma Bounded(x: int, y: int, m: int)
    requires -m <= x <= m && -m <= y <= m
    ensures -(m * m) <= x * y <= m * m
  {
    assert (m - x) * (m + y) >= 0 && (m + x) * (m - y) >= 0 && (m - x) * (m - y) >= 0 && (m + x) * (m + y) >= 0;
  }

  lemma HalvesJoin(acc: int)
    requires -0x8000_0000 * WORD_RANGE <= acc < 0x8000_0000 * WORD_RANGE
    ensures Signed(Trunc(acc / WORD_RANGE)) * WORD_RANGE + Trunc(acc) == acc
  {
  }

  lemma Halves(a: Word, b: Word)
    ensures IsProduct(false, a, b, Trunc(a * b / WORD_RANGE), Trunc(a * b))
  {
    Bounded(a, b, WORD_RANGE - 1);
    NatHalves(a * b);
  }

  lemma NatHalves(acc: nat)
    requires acc <= (WORD_RANGE - 1) * (WORD_RANGE - 1)
    ensures Trunc(acc / WORD_RANGE) * WORD_RANGE + Trunc(acc) == acc
  {
  }

  function Abs(x: int): int {
    if x < 0 then -x else x
  }

  // Quotient and rest, where the rest has the sign of the dividend.
  predicate Divides(x: int, y: int, q: int, r: int) {
    x == q * y + r && Abs(r) < Abs(y) && (x > 0 ==> r >= 0) && (x < 0 ==> r <= 0)
  }

  /** div, divu: lo is the quotient and hi the rest.  A zero divisor panics, and the one quotient that does not fit, of
      the least number by -1, wraps around. */
  lemma QuotientStep(oracle: Oracle, vm: Vm, s: Reg, t: Reg, d: Reg, sh: Reg, fun: Six) returns (hi: Word, lo: Word)
    requires NextIsR(vm, 0, s, t, d, sh, fun) && fun in {0x1a, 0x1b}
    ensures var a, b := vm.cpu.regs[s], vm.cpu.regs[t];
      if b == 0 then StepVm(oracle, vm).None? else
        && LeavesHiLo(oracle, vm, d, 0, hi, lo)
        && if fun == 0x1b then Divides(a, b, lo, hi)
           else if a == 0x8000_0000 && b == 0xffff_ffff then lo == a && hi == 0
           else Divides(Signed(a), Signed(b), Signed(lo), Signed(hi))
  {
    hide StepVm, NextInsn, NextIsR, Signed, Divides, Trunc, Quot, Rem;
    HiLoStep(oracle, vm, s, t, d, sh, fun);
    var a, b := vm.cpu.regs[s], vm.cpu.regs[t];
    hi, lo := 0, 0;
    if b != 0 {
      if fun == 0x1b {
        hi, lo := a % b, a / b;
        NatDivides(a, b);
      } else {
        SignTests(b);
        hi, lo := Trunc(Rem(Signed(a), Signed(b))), Trunc(Quot(Signed(a), Signed(b)));
        SignedDivides(a, b);
      }
    }
  }

  lemma NatDivides(a: nat, b: nat)
    requires b > 0
    ensures Divides(a, b, a / b, a % b)
  {
    assert a == b * (a / b) + a % b;
  }

  lemma SignedDivides(a: Word, b: Word)
    requires Signed(b) != 0
    ensures var hi, lo := Trunc(Rem(Signed(a), Signed(b))), Trunc(Quot(Signed(a), Signed(b)));
      if a == 0x8000_0000 && b == 0xffff_ffff then lo == a && hi == 0
      else Divides(Signed(a), Signed(b), Signed(lo), Signed(hi))
  {
    hide Quot, Rem, Divides;
    Truncated(Signed(a), Signed(b));
  }

  lemma Truncated(x: int, y: int)
    requires y != 0 && -0x8000_0000 <= x < 0x8000_0000 && Abs(y) <= 0x8000_0000
    ensures Divides(x, y, Quot(x, y), Rem(x, y))
    ensures if x == -0x8000_0000 && y == -1 then Quot(x, y) == 0x8000_0000 && Rem(x, y) == 0
            else -0x8000_0000 <= Quot(x, y) < 0x8000_0000 && Abs(Rem(x, y)) < 0x8000_0000
  {
    hide Quot, Rem;
    var q, r, n := Quot(x, y), Rem(x, y), Abs(x);
    RestIs(x, y);
    RestBound(n, y);
    assert q * y == x - r;
    FactorIsSmaller(q, y);
    if q == 0x8000_0000 {
      assert Abs(q * y) <= 0x8000_0000;
      OnlyMinusOne(x, y, r);
    }
    if y == -1 {
      assert n / y == -n && n % y == 0;
    }
  }

  lemma RestBound(n: nat, y: int)
    requires y != 0
    ensures 0 <= n % y < Abs(y) && n % y <= n
  {
    var k := n / y;
    assert n == y * k + n % y;
    if y > 0 {
      assert k >= 0;
      assert y * k >= 0;
    } else {
      assert k <= 0;
      assert y * k >= 0;
    }
  }

  lemma OnlyMinusOne(x: int, y: int, r: int)
    requires 0x8000_0000 * y == x - r && Abs(x - r) <= 0x8000_0000 && x < 0x8000_0000 && y != 0
    requires (x >= 0 ==> 0 <= r <= x) && (x < 0 ==> x <= r <= 0) && x >= -0x8000_0000
    ensures x == -0x8000_0000 && y == -1 && r == 0
  {
  }

  lemma RestIs(x: int, y: int)
    requires y != 0
    ensures Rem(x, y) == x - Quot(x, y) * y
    ensures var n := Abs(x);
      && Quot(x, y) == (if x >= 0 then n / y else -(n / y))
      && Rem(x, y) == (if x >= 0 then n % y else -(n % y))
  {
    var n := Abs(x);
    assert n % y == n - y * (n / y);
    if x < 0 {
      assert y * -(n / y) == -(y * (n / y));
    }
  }

  lemma FactorIsSmaller(q: int, y: int)
    requires y != 0
    ensures Abs(q) <= Abs(q * y)
  {
    if y > 0 {
      assert q >= 0 ==> q * y >= q;
      assert q <= 0 ==> q * y <= q;
    } else {
      assert q >= 0 ==> q * y <= -q;
      assert q <= 0 ==> q * y >= -q;
    }
  }

  // ----- Conditional moves -----

  /** movz, movn and sync, which the VM takes for a move. */
  lemma MoveStep(oracle: Oracle, vm: Vm, s: Reg, t: Reg, d: Reg, sh: Reg, fun: Six)
    requires NextIsR(vm, 0, s, t, d, sh, fun) && fun in {0xa, 0xb, 0xf}
    ensures var a, b := vm.cpu.regs[s], vm.cpu.regs[t];
      if fun == 0xf || (fun == 0xa && b == 0) || (fun == 0xb && b != 0) then Writes(oracle, vm, d, a)
      else StepVm(oracle, vm) == Some(Retired(vm, vm.cpu.regs))
  {
    hide StepVm, NextInsn, NextIsR, Opcode, Funct, RsReg, RtReg, RdReg, HiLo, Jump, Syscall, MemOp, Branch;
    DecodedR(vm, 0, s, t, d, sh, fun);
    var insn := NextInsn(vm).value;
    assert Execute(insn, vm.cpu.regs[s], vm.cpu.regs[t], 0) == Some(vm.cpu.regs[s]);
    PlainStep(oracle, vm, insn, Exec(oracle, Ticked(vm.cpu), vm.cache, insn, 0));
  }

  // ----- Everything else -----

  // Instructions of the opcodes below 0x20 that the VM does not know.
  predicate Unknown(op: nat, fun: nat) {
    || (op == 0 && (fun in {1, 5, 0xd, 0xe, 0x28, 0x29} || 0x14 <= fun < 0x18 || 0x1c <= fun < 0x20 || 0x2c <= fun))
    || (op == 0x1c && fun !in {2, 0x20, 0x21})
    || 0x10 <= op < 0x1c || 0x1d <= op < 0x20
  }

  /** An unknown instruction panics. */
  lemma UnknownStep(oracle: Oracle, vm: Vm)
    requires NextInsn(vm).Some?
    requires var insn := NextInsn(vm).value; Unknown(insn / 0x400_0000, insn % 64)
    ensures StepVm(oracle, vm).None?
  {
    hide StepVm, NextInsn, RsReg, RtReg, RdReg, HiLo, Jump, Syscall, MemOp, Branch;
    var insn := NextInsn(vm).value;
    PlainStep(oracle, vm, insn, Exec(oracle, Ticked(vm.cpu), vm.cache, insn, 0));
  }
}
