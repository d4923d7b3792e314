/** The Y86-64 instruction set as the emulator reads it: status codes,
    condition codes, the opcode / ALU-function / branch-condition tables, operand
    selection, the ALU and the condition test. */
module Isa {
  import opened Words
  import opened Registers

  /** Processor status; Code() is the number the trace exposes. */
  datatype Stat = AOK | HLT | ADR | INS {
    function Code(): (c: int)
      ensures 1 <= c <= 4
      ensures (c == 1) == (this == AOK)
    {
      match this
      case AOK => 1
      case HLT => 2
      case ADR => 3
      case INS => 4
    }
  }

  datatype CC = CC(zf: bool, sf: bool, of: bool)

  /** Condition codes after reset: ZF set, SF and OF clear. */
  const INITIAL_CC: CC := CC(true, false, false)

  // Opcodes (high nibble of the first instruction byte).
  const HALT: Nibble := 0x0
  const NOP: Nibble := 0x1
  const RRMOVQ: Nibble := 0x2
  const IRMOVQ: Nibble := 0x3
  const RMMOVQ: Nibble := 0x4
  const MRMOVQ: Nibble := 0x5
  const OPQ: Nibble := 0x6
  const JXX: Nibble := 0x7
  const CALL: Nibble := 0x8
  const RET: Nibble := 0x9
  const PUSHQ: Nibble := 0xA
  const POPQ: Nibble := 0xB

  // ALU functions (low nibble of an OPQ byte).
  const ADD: Nibble := 0
  const SUB: Nibble := 1
  const AND: Nibble := 2
  const XOR: Nibble := 3

  // Branch / move conditions (low nibble of a JXX or RRMOVQ byte).
  const ALWAYS: Nibble := 0
  const LE: Nibble := 1
  const L: Nibble := 2
  const E: Nibble := 3
  const NE: Nibble := 4
  const GE: Nibble := 5
  const G: Nibble := 6

  /** High nibble of a byte, (b >> 4) & 0xF: the opcode, or register rA. */
  function HighNibble(b: Byte): (n: Nibble)
    ensures 16 * n <= b < 16 * n + 16
  {
    b / 16
  }

  /** Low nibble of a byte, b & 0xF: the function code, or register rB. */
  function LowNibble(b: Byte): (n: Nibble)
    ensures b == 16 * HighNibble(b) + n
  {
    b % 16
  }

  /** Opcodes followed by a register-specifier byte. */
  predicate NeedsRegIds(icode: Nibble) {
    icode == RRMOVQ || icode == IRMOVQ || icode == RMMOVQ || icode == MRMOVQ || icode == OPQ || icode == PUSHQ || icode == POPQ
  }

  /** Opcodes followed by an eight-byte constant valC. */
  predicate NeedsValC(icode: Nibble) {
    icode == IRMOVQ || icode == RMMOVQ || icode == MRMOVQ || icode == JXX || icode == CALL
  }

  /** Register whose value becomes valA. */
  function SrcA(icode: Nibble, rA: Nibble): Nibble {
    if icode == RRMOVQ || icode == RMMOVQ || icode == OPQ || icode == PUSHQ then rA
    else if icode == POPQ || icode == RET then RSP
    else NONE
  }

  /** Register whose value becomes valB. */
  function SrcB(icode: Nibble, rB: Nibble): Nibble {
    if icode == RRMOVQ || icode == IRMOVQ || icode == RMMOVQ || icode == MRMOVQ || icode == OPQ then rB
    else if icode == PUSHQ || icode == POPQ || icode == CALL || icode == RET then RSP
    else NONE
  }

  /** The ALU inputs and function chosen for an instruction. */
  datatype AluSetup = AluSetup(aluA: Word, aluB: Word, op: Nibble)

  /** Operand and function selection of the execute stage (every opcode but JXX). */
  function AluOperands(icode: Nibble, ifunc: Nibble, valA: Word, valB: Word, valC: Word): (s: AluSetup)
    ensures icode != OPQ ==> s.op == ADD
    ensures (icode == PUSHQ || icode == CALL) ==> s == AluSetup(AsUint64(-8), valB, ADD)
    ensures (icode == POPQ || icode == RET) ==> s == AluSetup(8, valB, ADD)
  {
    if icode == RRMOVQ then AluSetup(valA, 0, ADD)
    else if icode == IRMOVQ then AluSetup(valC, 0, ADD)
    else if icode == RMMOVQ || icode == MRMOVQ then AluSetup(valC, valB, ADD)
    else if icode == OPQ then AluSetup(valA, valB, ifunc)
    else if icode == PUSHQ || icode == CALL then AluSetup(AsUint64(-8), valB, ADD)
    else if icode == POPQ || icode == RET then AluSetup(8, valB, ADD)
    else AluSetup(0, 0, ADD)
  }

  function Pow2(n: nat): (p: nat)
    ensures p > 0
  {
    if n == 0 then 1 else 2 * Pow2(n - 1)
  }

  /** Bitwise AND of the low n bits of a and b. */
  function AndBits(a: nat, b: nat, n: nat): (r: nat)
    ensures r < Pow2(n)
  {
    if n == 0 then 0 else (a % 2) * (b % 2) + 2 * AndBits(a / 2, b / 2, n - 1)
  }

  /** Bitwise exclusive OR of the low n bits of a and b. */
  function XorBits(a: nat, b: nat, n: nat): (r: nat)
    ensures r < Pow2(n)
  {
    if n == 0 then 0 else (a + b) % 2 + 2 * XorBits(a / 2, b / 2, n - 1)
  }

  lemma Pow2SixtyFour()
    ensures Pow2(64) == TWO64
  {
    assert Pow2(8) == 0x100;
    assert Pow2(16) == 0x1_0000;
    assert Pow2(24) == 0x100_0000;
    assert Pow2(32) == 0x1_0000_0000;
    assert Pow2(40) == 0x100_0000_0000;
    assert Pow2(48) == 0x1_0000_0000_0000;
    assert Pow2(56) == 0x100_0000_0000_0000;
  }

  function BitAnd(a: Word, b: Word): Word {
    Pow2SixtyFour();
    AndBits(b, a, 64)
  }

  function BitXor(a: Word, b: Word): Word {
    Pow2SixtyFour();
    XorBits(b, a, 64)
  }

  /** Bit i of x, (x >> i) & 1: the low bit after i halvings. */
  function BitOf(x: nat, i: nat): (r: nat)
    ensures r < 2
  {
    if i == 0 then x % 2 else BitOf(x / 2, i - 1)
  }

  /** Every bit of 0 is 0. */
  lemma {:induction false} BitOfZero(i: nat)
    ensures BitOf(0, i) == 0
  {
    if i > 0 {
      BitOfZero(i - 1);
    }
  }

  /** Bit 0 of c + 2 * y is c, and the higher bits are those of y. */
  lemma BitOfShifted(c: nat, y: nat, i: nat)
    requires c < 2
    ensures BitOf(c + 2 * y, 0) == c
    ensures BitOf(c + 2 * y, i + 1) == BitOf(y, i)
  {
    assert (c + 2 * y) / 2 == y;
  }

  /** Each of the low n bits of AndBits is the AND of the operands' bits. */
  lemma {:induction false} AndBitsBit(a: nat, b: nat, n: nat, i: nat)
    requires i < n
    ensures BitOf(AndBits(a, b, n), i) == BitOf(a, i) * BitOf(b, i)
    decreases n
  {
    var c, rest := (a % 2) * (b % 2), AndBits(a / 2, b / 2, n - 1);
    if i == 0 {
      BitOfShifted(c, rest, 0);
    } else {
      BitOfShifted(c, rest, i - 1);
      AndBitsBit(a / 2, b / 2, n - 1, i - 1);
    }
  }

  /** Each of the low n bits of XorBits is the exclusive OR of the operands' bits. */
  lemma {:induction false} XorBitsBit(a: nat, b: nat, n: nat, i: nat)
    requires i < n
    ensures BitOf(XorBits(a, b, n), i) == (BitOf(a, i) + BitOf(b, i)) % 2
    decreases n
  {
    var c, rest := (a + b) % 2, XorBits(a / 2, b / 2, n - 1);
    if i == 0 {
      BitOfShifted(c, rest, 0);
      SumParity(a, b);
    } else {
      BitOfShifted(c, rest, i - 1);
      XorBitsBit(a / 2, b / 2, n - 1, i - 1);
    }
  }

  /** The low bit of a sum is the sum modulo 2 of the low bits. */
  lemma SumParity(a: nat, b: nat)
    ensures (a + b) % 2 == (a % 2 + b % 2) % 2
  {
    assert a + b == 2 * (a / 2 + b / 2) + (a % 2 + b % 2);
    DivModUnique(a + b, 2, (a / 2 + b / 2) + (a % 2 + b % 2) / 2, (a % 2 + b % 2) % 2);
  }

  /** Two numbers below 2^n with the same low n bits are equal. */
  lemma {:induction false} BitsDetermine(x: nat, y: nat, n: nat)
    requires x < Pow2(n) && y < Pow2(n)
    requires forall i :: 0 <= i < n ==> BitOf(x, i) == BitOf(y, i)
    ensures x == y
    decreases n
  {
    if n > 0 {
      assert BitOf(x, 0) == BitOf(y, 0);
      forall i | 0 <= i < n - 1 ensures BitOf(x / 2, i) == BitOf(y / 2, i) {
        assert BitOf(x, i + 1) == BitOf(x / 2, i) && BitOf(y, i + 1) == BitOf(y / 2, i);
      }
      BitsDetermine(x / 2, y / 2, n - 1);
    }
  }

  /** The 64-bit AND: bit i of the result is the AND of bit i of a and of b,
      and the result is the only word with those bits. */
  lemma BitAndBits(a: Word, b: Word, r: Word)
    ensures forall i :: 0 <= i < 64 ==> BitOf(BitAnd(a, b), i) == BitOf(a, i) * BitOf(b, i)
    ensures (forall i :: 0 <= i < 64 ==> BitOf(r, i) == BitOf(a, i) * BitOf(b, i)) ==> r == BitAnd(a, b)
  {
    Pow2SixtyFour();
    forall i | 0 <= i < 64 ensures BitOf(BitAnd(a, b), i) == BitOf(a, i) * BitOf(b, i) {
      AndBitsBit(b, a, 64, i);
    }
    if forall i :: 0 <= i < 64 ==> BitOf(r, i) == BitOf(a, i) * BitOf(b, i) {
      BitsDetermine(r, BitAnd(a, b), 64);
    }
  }

  /** The 64-bit XOR: bit i of the result is the exclusive OR of bit i of a
      and of b, and the result is the only word with those bits. */
  lemma BitXorBits(a: Word, b: Word, r: Word)
    ensures forall i :: 0 <= i < 64 ==> BitOf(BitXor(a, b), i) == (BitOf(a, i) + BitOf(b, i)) % 2
    ensures (forall i :: 0 <= i < 64 ==> BitOf(r, i) == (BitOf(a, i) + BitOf(b, i)) % 2) ==> r == BitXor(a, b)
  {
    Pow2SixtyFour();
    forall i | 0 <= i < 64 ensures BitOf(BitXor(a, b), i) == (BitOf(a, i) + BitOf(b, i)) % 2 {
      XorBitsBit(b, a, 64, i);
    }
    if forall i :: 0 <= i < 64 ==> BitOf(r, i) == (BitOf(a, i) + BitOf(b, i)) % 2 {
      BitsDetermine(r, BitXor(a, b), 64);
    }
  }

  /** AND does not depend on the order of its operands; a word XOR itself is 0. */
  lemma BitAlgebra(a: Word, b: Word)
    ensures BitAnd(a, b) == BitAnd(b, a)
    ensures BitXor(a, a) == 0
  {
    assert BitAnd(a, b) == BitAnd(b, a) by {
      BitAndBits(a, b, BitAnd(b, a));
      BitAndBits(b, a, BitAnd(b, a));
    }
    assert BitXor(a, a) == 0 by {
      BitXorBits(a, a, 0);
      forall i | 0 <= i < 64 ensures BitOf(0, i) == (BitOf(a, i) + BitOf(a, i)) % 2 {
        BitOfZero(i);
      }
    }
  }

  /** Computing on the signed readings of two words gives the same bit pattern
      as computing on the words themselves. */
  lemma SignedOperands(a: Word, b: Word)
    ensures AsUint64(ToSigned(b) + ToSigned(a)) == AsUint64(b + a)
    ensures AsUint64(ToSigned(b) - ToSigned(a)) == AsUint64(b - a)
  {
    var da, db := a - ToSigned(a), b - ToSigned(b);
    assert da == 0 || da == TWO64;
    assert db == 0 || db == TWO64;
    ModShift(ToSigned(b) + ToSigned(a), (da + db) / TWO64);
    ModShift(ToSigned(b) - ToSigned(a), (db - da) / TWO64);
  }

  lemma ModShift(x: int, k: int)
    requires -2 <= k <= 2
    ensures AsUint64(x + k * TWO64) == AsUint64(x)
  {
    DivModUnique(x + k * TWO64, TWO64, x / TWO64 + k, x % TWO64);
  }

  /** The ALU: b op a on 64-bit two's-complement values; an unknown function
      yields 0.  The signed result is that of the exact integer operation
      narrowed to 64 bits (BigInt.asIntN(64, b op a)). */
  function ExecAlu(op: Nibble, a: Word, b: Word): (r: Word)
    ensures op == ADD ==> ToSigned(r) == AsInt64(ToSigned(b) + ToSigned(a))
    ensures op == SUB ==> ToSigned(r) == AsInt64(ToSigned(b) - ToSigned(a))
    ensures op == AND ==> r == BitAnd(a, b)
    ensures op == XOR ==> r == BitXor(a, b)
    ensures !(op == ADD || op == SUB || op == AND || op == XOR) ==> r == 0
  {
    SignedOperands(a, b);
    if op == ADD then AsUint64(b + a)
    else if op == SUB then AsUint64(b - a)
    else if op == AND then BitAnd(a, b)
    else if op == XOR then BitXor(a, b)
    else 0
  }

  /** The stack-pointer adjustments of PUSHQ/CALL (a = -8) and POPQ/RET (a = 8)
      move the pointer by eight bytes modulo 2^64. */
  lemma StackAdjust(sp: Word)
    ensures ExecAlu(ADD, AsUint64(-8), sp) == AsUint64(sp - 8)
    ensures ExecAlu(ADD, 8, sp) == AsUint64(sp + 8)
  {
    assert AsUint64(-8) == TWO64 - 8;
    ModShift(sp - 8, 1);
  }

  /** Whether a signed integer fits in 64 bits. */
  predicate FitsInt64(x: int) {
    -TWO63 <= x < TWO63
  }

  /** OF as both source files compute it, from the signed operands and result. */
  function OverflowAsWritten(op: Nibble, a: Word, b: Word, e: Word): bool {
    var sa, sb, se := ToSigned(a), ToSigned(b), ToSigned(e);
    if op == ADD then (sa > 0 && sb > 0 && se < 0) || (sa < 0 && sb < 0 && se > 0)
    else if op == SUB then (sa < 0 && sb > 0 && se < 0) || (sa > 0 && sb < 0 && se > 0)
    else false
  }

  /** OF by sign bits: an addition overflows when both operands have one sign
      and the result the other; a subtraction b - a when the operands differ in
      sign and the result's sign differs from b's. */
  function Overflow(op: Nibble, a: Word, b: Word, e: Word): bool {
    var na, nb, ne := ToSigned(a) < 0, ToSigned(b) < 0, ToSigned(e) < 0;
    if op == ADD then na == nb && ne != na
    else if op == SUB then na != nb && ne != nb
    else false
  }

  /** OF is set exactly when the exact signed result does not fit in 64 bits. */
  lemma OverflowIsOutOfRange(a: Word, b: Word)
    ensures Overflow(ADD, a, b, ExecAlu(ADD, a, b)) == !FitsInt64(ToSigned(b) + ToSigned(a))
    ensures Overflow(SUB, a, b, ExecAlu(SUB, a, b)) == !FitsInt64(ToSigned(b) - ToSigned(a))
  {
  }

  /** The as-written OF misses two overflows, MIN + MIN (which wraps to 0) and
      0 - MIN, where MIN is the most negative word 0x8000000000000000. */
  lemma OverflowAsWrittenMisses()
    ensures !FitsInt64(ToSigned(TWO63) + ToSigned(TWO63))
    ensures !OverflowAsWritten(ADD, TWO63, TWO63, ExecAlu(ADD, TWO63, TWO63))
    ensures !FitsInt64(ToSigned(0) - ToSigned(TWO63))
    ensures !OverflowAsWritten(SUB, TWO63, 0, ExecAlu(SUB, TWO63, 0))
  {
  }

  /** Those two operand pairs are the only inputs where the two OF formulas differ. */
  lemma OverflowAsWrittenElsewhere(op: Nibble, a: Word, b: Word)
    requires op == ADD ==> !(a == TWO63 && b == TWO63)
    requires op == SUB ==> !(a == TWO63 && b == 0)
    ensures OverflowAsWritten(op, a, b, ExecAlu(op, a, b)) == Overflow(op, a, b, ExecAlu(op, a, b))
  {
  }

  /** The source's OF never reports a false overflow: when it is set, the
      exact signed result does not fit in 64 bits. */
  lemma OverflowAsWrittenSound(op: Nibble, a: Word, b: Word)
    ensures OverflowAsWritten(op, a, b, ExecAlu(op, a, b)) ==> Overflow(op, a, b, ExecAlu(op, a, b))
  {
    ConditionCodesAgree(op, a, b);
  }

  /** Condition codes set by OPQ from its operands a, b and result e. */
  function ConditionCodes(op: Nibble, a: Word, b: Word, e: Word): (cc: CC)
    ensures cc.zf == (e == 0)
    ensures cc.sf == (ToSigned(e) < 0)
    ensures op !in {ADD, SUB} ==> !cc.of
  {
    CC(e == 0, ToSigned(e) < 0, Overflow(op, a, b, e))
  }

  /** Condition codes as both source files set them, with the as-written OF. */
  function ConditionCodesAsWritten(op: Nibble, a: Word, b: Word, e: Word): (cc: CC)
    ensures cc.zf == (e == 0)
    ensures cc.sf == (ToSigned(e) < 0)
    ensures cc.of == OverflowAsWritten(op, a, b, e)
  {
    CC(e == 0, ToSigned(e) < 0, OverflowAsWritten(op, a, b, e))
  }

  /** The two operand pairs on which the two OF formulas part: MIN + MIN and 0 - MIN. */
  predicate OverflowDiverges(op: Nibble, a: Word, b: Word) {
    (op == ADD && a == TWO63 && b == TWO63) || (op == SUB && a == TWO63 && b == 0)
  }

  /** The condition codes the model sets are those the source sets, except on
      exactly those two operand pairs, where only OF differs. */
  lemma ConditionCodesAgree(op: Nibble, a: Word, b: Word)
    ensures var e := ExecAlu(op, a, b);
            ConditionCodes(op, a, b, e) == ConditionCodesAsWritten(op, a, b, e) <==> !OverflowDiverges(op, a, b)
    ensures var e := ExecAlu(op, a, b);
            OverflowDiverges(op, a, b) ==> ConditionCodes(op, a, b, e).of && !ConditionCodesAsWritten(op, a, b, e).of
  {
    if OverflowDiverges(op, a, b) {
      OverflowAsWrittenMisses();
      OverflowIsOutOfRange(a, b);
    } else {
      OverflowAsWrittenElsewhere(op, a, b);
    }
  }

  /** The branch / conditional-move test; unknown conditions are false. */
  function Cond(ifunc: Nibble, cc: CC): bool {
    if ifunc == ALWAYS then true
    else if ifunc == LE then (cc.sf != cc.of) || cc.zf
    else if ifunc == L then cc.sf != cc.of
    else if ifunc == E then cc.zf
    else if ifunc == NE then !cc.zf
    else if ifunc == GE then cc.sf == cc.of
    else if ifunc == G then cc.sf == cc.of && !cc.zf
    else false
  }

  /** After subq a, b (flags from b - a) each condition is the signed
      comparison of b with a that its name says. */
  lemma CondAfterCompare(a: Word, b: Word)
    ensures var cc := ConditionCodes(SUB, a, b, ExecAlu(SUB, a, b));
      var sa, sb := ToSigned(a), ToSigned(b);
      && Cond(ALWAYS, cc)
      && Cond(LE, cc) == (sb <= sa)
      && Cond(L, cc) == (sb < sa)
      && Cond(E, cc) == (sb == sa)
      && Cond(NE, cc) == (sb != sa)
      && Cond(GE, cc) == (sb >= sa)
      && Cond(G, cc) == (sb > sa)
  {
    OverflowIsOutOfRange(a, b);
  }

  /** With the as-written OF, comparing 0 with MIN reports 0 < MIN. */
  lemma CondAfterCompareAsWritten()
    ensures var cc := ConditionCodesAsWritten(SUB, TWO63, 0, ExecAlu(SUB, TWO63, 0));
      Cond(L, cc) && ToSigned(0) > ToSigned(TWO63)
  {
  }
}
