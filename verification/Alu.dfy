/**
 The combinational part of one MIPS instruction: from the instruction word, the
 two operands and the word fetched from memory to the value produced.
 */
module Alu {
  import opened Words
  import opened Wrappers

  const ALL_ONES: Word := 0xFFFF_FFFF

  function Opcode(insn: Word): nat {
    insn / 0x400_0000
  }

  function Funct(insn: Word): nat {
    insn % 64
  }

  function Shamt(insn: Word): nat {
    insn / 64 % 32
  }

  function Imm16(insn: Word): Word {
    insn % 0x1_0000
  }

  // Sign extension of the low idx bits, with the wrap-around of Go's uint32 arithmetic.
  function SE(dat: Word, idx: Word): Word {
    var isSigned := Shr(dat, Sub(idx, 1)) != 0;
    var signed := Shl(Sub(Shl(1, Sub(32, idx)), 1), idx);
    var mask := Sub(Shl(1, idx), 1);
    if isSigned then Or(And(dat, mask), signed) else And(dat, mask)
  }

  // The number of leading one bits among the top n of an n-bit value.
  function LeadingOnes(x: nat, n: nat): (c: nat)
    requires x < Pow2(n)
    ensures c <= n
  {
    if n == 0 || x < Pow2(n - 1) then 0 else 1 + LeadingOnes(x - Pow2(n - 1), n - 1)
  }

  // How ArithLogI opcodes map to SPECIAL functions.
  function AluFunct(insn: Word): nat {
    var opcode := Opcode(insn);
    if opcode == 8 then 0x20 // addi
    else if opcode == 9 then 0x21 // addiu
    else if opcode == 0xA then 0x2A // slti
    else if opcode == 0xB then 0x2B // sltiu
    else if opcode == 0xC then 0x24 // andi
    else if opcode == 0xD then 0x25 // ori
    else if opcode == 0xE then 0x26 // xori
    else Funct(insn)
  }

  // SPECIAL; None is an invalid instruction.
  function Special(insn: Word, rs: Word, rt: Word): Option<Word> {
    var fun := AluFunct(insn);
    if fun == 0x00 then Some(Shl(rt, Shamt(insn))) // sll
    else if fun == 0x02 then Some(Shr(rt, Shamt(insn))) // srl
    else if fun == 0x03 then Some(SE(Shr(rt, Shamt(insn)), 32 - Shamt(insn))) // sra
    else if fun == 0x04 then Some(Shl(rt, rs % 32)) // sllv
    else if fun == 0x06 then Some(Shr(rt, rs % 32)) // srlv
    else if fun == 0x07 then Some(SE(Shr(rt, rs), Sub(32, rs))) // srav
    // the range 0x08 to 0x1b is handled by the callers
    else if 0x08 <= fun <= 0x0c || fun == 0x0f || 0x10 <= fun <= 0x13 || 0x18 <= fun <= 0x1b then Some(rs)
    else if fun == 0x20 || fun == 0x21 then Some(Add(rs, rt)) // add, addu
    else if fun == 0x22 || fun == 0x23 then Some(Sub(rs, rt)) // sub, subu
    else if fun == 0x24 then Some(And(rs, rt)) // and
    else if fun == 0x25 then Some(Or(rs, rt)) // or
    else if fun == 0x26 then Some(Xor(rs, rt)) // xor
    else if fun == 0x27 then Some(Not(Or(rs, rt))) // nor
    else if fun == 0x2a then Some(if Signed(rs) < Signed(rt) then 1 else 0) // slt
    else if fun == 0x2b then Some(if rs < rt then 1 else 0) // sltu
    else None
  }

  function Mul(rs: Word, rt: Word): Word {
    Trunc(Signed(rs) * Signed(rt))
  }

  function Special2(insn: Word, rs: Word, rt: Word): Option<Word> {
    var fun := Funct(insn);
    if fun == 0x02 then Some(Mul(rs, rt))
    else if fun == 0x20 then WordBits(); Some(LeadingOnes(Not(rs), 32)) // clz
    else if fun == 0x21 then WordBits(); Some(LeadingOnes(rs, 32)) // clo
    else None
  }

  // Loads and stores: the value for the register, or the new memory word.
  function LoadStore(opcode: nat, rs: Word, rt: Word, mem: Word): Option<Word> {
    var o := rs % 4; // rs & 3
    var o2 := rs / 2 % 2 * 2; // rs & 2
    if opcode == 0x20 then Some(SE(And(Shr(mem, 24 - o * 8), 0xFF), 8)) // lb
    else if opcode == 0x21 then Some(SE(And(Shr(mem, 16 - o2 * 8), 0xFFFF), 16)) // lh
    else if opcode == 0x22 then // lwl
      Some(Or(And(rt, Not(Shl(ALL_ONES, o * 8))), Shl(mem, o * 8)))
    else if opcode == 0x23 then Some(mem) // lw
    else if opcode == 0x24 then Some(And(Shr(mem, 24 - o * 8), 0xFF)) // lbu
    else if opcode == 0x25 then Some(And(Shr(mem, 16 - o2 * 8), 0xFFFF)) // lhu
    else if opcode == 0x26 then // lwr
      Some(Or(And(rt, Not(Shr(ALL_ONES, 24 - o * 8))), Shr(mem, 24 - o * 8)))
    else if opcode == 0x28 then // sb
      Some(Or(And(mem, Xor(ALL_ONES, Shl(0xFF, 24 - o * 8))), Shl(And(rt, 0xFF), 24 - o * 8)))
    else if opcode == 0x29 then // sh
      Some(Or(And(mem, Xor(ALL_ONES, Shl(0xFFFF, 16 - o2 * 8))), Shl(And(rt, 0xFFFF), 16 - o2 * 8)))
    else if opcode == 0x2a then // swl
      Some(Or(And(mem, Not(Shr(ALL_ONES, o * 8))), Shr(rt, o * 8)))
    else if opcode == 0x2b then Some(rt) // sw
    else if opcode == 0x2e then // swr
      Some(Or(And(mem, Not(Shl(ALL_ONES, 24 - o * 8))), Shl(rt, 24 - o * 8)))
    else if opcode == 0x30 then Some(mem) // ll
    else if opcode == 0x38 then Some(rt) // sc
    else None
  }

  function Execute(insn: Word, rs: Word, rt: Word, mem: Word): Option<Word> {
    var opcode := Opcode(insn);
    if opcode == 0 || 8 <= opcode < 0xF then Special(insn, rs, rt)
    else if opcode == 0x1C then Special2(insn, rs, rt)
    else if opcode == 0x0F then Some(Shl(rt, 16)) // lui
    else LoadStore(opcode, rs, rt, mem)
  }

  // ----- clo and clz by shifting -----

  lemma {:induction false} LeadingOnesMeaning(x: nat, n: nat)
    requires x < Pow2(n)
    ensures var c := LeadingOnes(x, n);
      && Pow2(n) - Pow2(n - c) <= x
      && (c < n ==> x < Pow2(n) - Pow2(n - c - 1))
  {
    if n > 0 && x >= Pow2(n - 1) {
      LeadingOnesMeaning(x - Pow2(n - 1), n - 1);
    }
  }

  lemma TopBitTest(x: Word)
    ensures And(x, 0x8000_0000) != 0 <==> x >= 0x8000_0000
  {
    WordBits();
    AndHighMask(x, 0x8000_0000, 31, 32);
    SplitBits(x, 31);
    ShiftRightNonzero(x, 31);
    LowBitsOfSmall(x);
  }

  lemma LowBitsOfSmall(x: Word)
    ensures x < 0x8000_0000 ==> LowBits(x, 31) == x
  {
    WordBits();
    if x < 0x8000_0000 {
      LowBitsAll(x, 31);
    }
  }

  /** The counting loop of clo, which clz runs on the complement. */
  method CountLeadingOnes(rs: Word) returns (i: Word)
    ensures Pow2(32) == WORD_RANGE && i == LeadingOnes(rs, 32)
  {
    WordBits();
    var x := rs;
    ghost var y: nat := rs;  // the bits of rs not yet shifted out
    i := 0;
    while And(x, 0x8000_0000) != 0
      invariant i <= 32 && y < Pow2(32 - i) && x == ShiftLeft(y, i)
      invariant LeadingOnes(rs, 32) == i + LeadingOnes(y, 32 - i)
      decreases 32 - i
    {
      TopBitTest(x);
      ShiftOutTop(x, y, i);
      y := y - Pow2(31 - i);
      x := Shl(x, 1);
      i := i + 1;
    }
    TopBitTest(x);
    if i < 32 {
      NoTopBit(x, y, i);
    }
  }

  lemma ShiftOutTop(x: Word, y: nat, i: nat)
    requires i <= 32 && y < Pow2(32 - i) && x == ShiftLeft(y, i) && x >= 0x8000_0000
    ensures i < 32 && Pow2(31 - i) <= y && Shl(x, 1) == ShiftLeft(y - Pow2(31 - i), i + 1)
  {
    WordBits();
    if i == 32 {
      ShiftLeftZero(32);
    }
    NoTopBit(x, y, i);
    ShiftLeftPow2(31 - i, i);
    ShiftLeftAdd(y - Pow2(31 - i), Pow2(31 - i), i);
    assert ShiftLeft(x, 1) == 2 * x;
  }

  lemma NoTopBit(x: Word, y: nat, i: nat)
    requires i < 32 && y < Pow2(32 - i) && x == ShiftLeft(y, i)
    ensures x < 0x8000_0000 <==> y < Pow2(31 - i)
  {
    WordBits();
    ShiftLeftPow2(31 - i, i);
    ShiftLeftLess(y, Pow2(31 - i), i);
  }

  lemma {:induction false} ShiftLeftZero(d: nat)
    ensures ShiftLeft(0, d) == 0
  {
    if d > 0 {
      ShiftLeftZero(d - 1);
    }
  }

  lemma {:induction false} ShiftLeftAdd(a: nat, b: nat, d: nat)
    ensures ShiftLeft(a + b, d) == ShiftLeft(a, d) + ShiftLeft(b, d)
  {
    if d > 0 {
      ShiftLeftAdd(a, b, d - 1);
    }
  }

  /** The instruction's combinational part as the code runs it, with the loop of clo and clz. */
  method RunAlu(insn: Word, rs: Word, rt: Word, mem: Word) returns (v: Option<Word>)
    ensures v == Execute(insn, rs, rt, mem)
  {
    if Opcode(insn) == 0x1C && Funct(insn) in {0x20, 0x21} {
      var n := CountLeadingOnes(if Funct(insn) == 0x20 then Not(rs) else rs);
      return Some(n);
    }
    return Execute(insn, rs, rt, mem);
  }

  // ----- Sign extension -----

  /** SE reads its low idx bits as a two's complement number. */
  lemma SignExtend(dat: Word, idx: Word)
    requires 1 <= idx <= 32 && dat < Pow2(idx)
    ensures Signed(SE(dat, idx)) == if dat < Pow2(idx - 1) then dat else dat - Pow2(idx)
  {
    hide Pow2, ShiftLeft, ShiftRight, AndBits, OrBits, LowBits;
    WordBits();
    SEMask(idx);
    AndLowMask(dat, idx, 32);
    LowBitsAll(dat, idx);
    ShiftRightNonzero(dat, idx - 1);
    SESigned(idx);
    Pow2Le(idx - 1, 31);
    Pow2Double(idx - 1);
    if dat >= Pow2(idx - 1) {
      OrIsAdd(dat, Pow2(32 - idx) - 1, idx, 32);
    }
  }

  lemma SEMask(idx: Word)
    requires 1 <= idx <= 32
    ensures Sub(Shl(1, idx), 1) == Pow2(idx) - 1
  {
    hide Pow2, ShiftLeft, ShiftRight, AndBits, OrBits, LowBits;
    WordBits();
    ShiftLeftPow2(0, idx);
    Pow2Le(idx, 31);
  }

  lemma SESigned(idx: Word)
    requires 1 <= idx <= 32
    ensures Shl(Sub(Shl(1, Sub(32, idx)), 1), idx) == WORD_RANGE - Pow2(idx)
    ensures ShiftLeft(Pow2(32 - idx) - 1, idx) == WORD_RANGE - Pow2(idx)
  {
    hide Pow2, ShiftLeft, ShiftRight, AndBits, OrBits, LowBits;
    WordBits();
    ShiftLeftPow2(0, 32 - idx);
    Pow2Le(32 - idx, 31);
    ShiftLeftPow2(32 - idx, idx);
  }

  lemma {:induction false} Pow2Le(a: nat, b: nat)
    ensures a <= b ==> Pow2(a) <= Pow2(b)
    decreases b
  {
    if a < b {
      Pow2Le(a, b - 1);
    }
  }

  lemma Pow2Double(n: nat)
    ensures Pow2(n + 1) == 2 * Pow2(n)
  {
  }

  // ----- Arithmetic shifts -----

  // Arithmetic shift right: halve, rounding down, d times.
  function Asr(x: int, d: nat): int
    decreases d
  {
    if d == 0 then x else Asr(x / 2, d - 1)
  }

  lemma {:induction false} AsrOfNat(x: nat, d: nat)
    ensures Asr(x, d) == ShiftRight(x, d)
    decreases d
  {
    if d > 0 {
      AsrOfNat(x / 2, d - 1);
    }
  }

  lemma {:induction false} AsrOfNegative(x: nat, n: nat, d: nat)
    requires d <= n
    ensures Asr(x - Pow2(n), d) == ShiftRight(x, d) - Pow2(n - d)
    decreases d
  {
    if d > 0 {
      assert (x - Pow2(n)) / 2 == x / 2 - Pow2(n - 1);
      AsrOfNegative(x / 2, n - 1, d - 1);
    }
  }

  lemma {:induction false} ShiftRightGe(x: nat, n: nat, d: nat)
    requires d <= n
    ensures x >= Pow2(n) <==> ShiftRight(x, d) >= Pow2(n - d)
    decreases d
  {
    if d > 0 {
      ShiftRightGe(x / 2, n - 1, d - 1);
    }
  }

  /** sra: for every shift amount the result is the arithmetic shift of the signed operand. */
  lemma ArithmeticShift(rt: Word, d: nat)
    requires d < 32
    ensures Signed(SE(Shr(rt, d), 32 - d)) == Asr(Signed(rt), d)
  {
    hide Pow2, ShiftRight, Asr;
    WordBits();
    ShiftRightBound(rt, 32, d);
    SignExtend(Shr(rt, d), 32 - d);
    ShiftRightGe(rt, 31, d);
    AsrOfNat(rt, d);
    AsrOfNegative(rt, 32, d);
  }

  /** srav uses the whole of rs where the architecture uses its low five bits.  The two agree exactly
      when rs is below 32 or the shift moves every bit of a non-negative operand out. */
  lemma SravExactly(insn: Word, rs: Word, rt: Word, mem: Word)
    requires Opcode(insn) == 0 && Funct(insn) == 7
    ensures Execute(insn, rs, rt, mem).Some?
    ensures Signed(Execute(insn, rs, rt, mem).value) == Asr(Signed(rt), rs % 32)
      <==> rs < 32 || rt < Pow2(rs % 32)
  {
    hide Execute, SE, Shr, Pow2, Asr;
    SravValue(insn, rs, rt, mem);
    if rs < 32 {
      ArithmeticShift(rt, rs);
    } else {
      SravOfLargeAmount(rt, rs);
      AsrZeroExactly(rt, rs % 32);
    }
  }

  lemma SravValue(insn: Word, rs: Word, rt: Word, mem: Word)
    requires Opcode(insn) == 0 && Funct(insn) == 7
    ensures Execute(insn, rs, rt, mem) == Some(SE(Shr(rt, rs), Sub(32, rs)))
  {
    hide SE, Shr, Sub;
  }

  lemma SravOfLargeAmount(rt: Word, rs: Word)
    requires rs >= 32
    ensures SE(Shr(rt, rs), Sub(32, rs)) == 0
  {
    WordBits();
    AndZero(Sub(Shl(1, Sub(32, rs)), 1), 32);
    ShiftRightZero(Sub(Sub(32, rs), 1));
  }

  lemma {:induction false} AndZero(y: nat, n: nat)
    ensures AndBits(0, y, n) == 0
  {
    if n > 0 {
      AndZero(y / 2, n - 1);
    }
  }

  lemma {:induction false} ShiftRightZero(d: nat)
    ensures ShiftRight(0, d) == 0
  {
    if d > 0 {
      ShiftRightZero(d - 1);
    }
  }

  lemma AsrZeroExactly(rt: Word, d: nat)
    requires d < 32
    ensures Asr(Signed(rt), d) == 0 <==> rt < Pow2(d)
  {
    hide Pow2, ShiftRight, Asr;
    WordBits();
    Pow2Le(d, 31);
    ShiftRightNonzero(rt, d);
    AsrOfNat(rt, d);
    AsrOfNegative(rt, 32, d);
    ShiftRightBound(rt, 32, d);
  }
}
