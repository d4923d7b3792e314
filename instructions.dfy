/** What one step does for each instruction, stated over the bytes at PC and
    the architectural state (PC, status, condition codes, registers, memory),
    plus the two-instruction facts the stack discipline promises. */
module Instructions {
  import opened Words
  import opened Registers
  import opened Memories
  import opened Isa
  import opened Processor

  /** The architectural part of a machine agrees: everything but the signals. */
  predicate SameState(r: Machine, m: Machine) {
    r.pc == m.pc && r.stat == m.stat && r.cc == m.cc && r.regs == m.regs && r.mem == m.mem
  }

  /** A machine ready to execute an instruction whose first `len` bytes are in memory. */
  predicate Ready(m: Machine, len: nat) {
    WellFormed(m) && m.stat == AOK && m.pc + len <= MEM_SIZE
  }

  function Op(m: Machine): Nibble
    requires Ready(m, 1)
  {
    HighNibble(m.mem[m.pc])
  }

  function Fn(m: Machine): Nibble
    requires Ready(m, 1)
  {
    LowNibble(m.mem[m.pc])
  }

  function RegA(m: Machine): Nibble
    requires Ready(m, 2)
  {
    HighNibble(m.mem[m.pc + 1])
  }

  function RegB(m: Machine): Nibble
    requires Ready(m, 2)
  {
    LowNibble(m.mem[m.pc + 1])
  }

  function Rsp(m: Machine): Word
    requires WellFormed(m)
  {
    Read(m.regs, RSP)
  }

  /** A step on a stopped machine changes nothing; HALT stops the machine
      without moving PC, and a stopped machine stays put for good. */
  lemma HaltStops(m: Machine)
    requires Ready(m, 1) && Op(m) == HALT
    ensures var r := StepSpec(m);
            r.stat == HLT && r.pc == m.pc && r.regs == m.regs && r.mem == m.mem && r.cc == m.cc
            && StepSpec(r) == r
  {
  }

  /** A PC outside memory makes the step fail with ADR and nothing else changes. */
  lemma FetchOutOfBounds(m: Machine)
    requires WellFormed(m) && m.stat == AOK && !ByteInBounds(m.pc)
    ensures SameState(StepSpec(m), m.(stat := ADR))
  {
  }

  /** An instruction that runs past the end of memory fails with ADR. */
  lemma FetchTruncated(m: Machine)
    requires Ready(m, 1) && Op(m) != HALT
    requires m.pc + InstrLength(Op(m)) > MEM_SIZE
    ensures SameState(StepSpec(m), m.(stat := ADR))
  {
  }

  /** The length of an instruction from its opcode: one byte, plus the register
      byte, plus the constant word. */
  function InstrLength(icode: Nibble): (n: nat)
    ensures 1 <= n <= 10
    ensures icode == RRMOVQ || icode == OPQ || icode == PUSHQ || icode == POPQ ==> n == 2
    ensures icode == IRMOVQ || icode == RMMOVQ || icode == MRMOVQ ==> n == 10
    ensures icode == JXX || icode == CALL ==> n == 9
    ensures icode == HALT || icode == NOP || icode == RET || icode >= 0xC ==> n == 1
  {
    1 + (if NeedsRegIds(icode) then 1 else 0) + (if NeedsValC(icode) then 8 else 0)
  }

  /** A cycle whose fetch succeeds is decided by its memory stage: on success
      write-back and PC update follow, on failure the cycle ends there. */
  lemma Cycle(m: Machine, m1: Machine, m4: Machine, ok: bool)
    requires WellFormed(m) && m.stat == AOK
    requires FetchStage(m) == (m1, true)
    requires MemoryStage(ExecuteStage(DecodeStage(m1))) == (m4, ok)
    ensures StepSpec(m) == if ok then UpdatePCStage(WritebackStage(m4)) else m4
  {
  }

  /** Fetching an instruction that lies wholly in memory succeeds: the
      signals carry its opcode, function code, register byte (NONE, NONE
      without one), constant, and the address after it. */
  lemma Fetched(m: Machine) returns (m1: Machine)
    requires Ready(m, 1) && Op(m) != HALT && m.pc + InstrLength(Op(m)) <= MEM_SIZE
    ensures FetchStage(m) == (m1, true) && WellFormed(m1)
    ensures m1.stat == AOK && m1.pc == m.pc && m1.cc == m.cc && m1.regs == m.regs && m1.mem == m.mem
    ensures m1.sig.icode == Op(m) && m1.sig.ifunc == Fn(m)
    ensures m1.sig.valP == m.pc + InstrLength(Op(m))
    ensures NeedsRegIds(Op(m)) ==> m1.sig.rA == RegA(m) && m1.sig.rB == RegB(m)
    ensures !NeedsRegIds(Op(m)) ==> m1.sig.rA == NONE && m1.sig.rB == NONE
    ensures NeedsValC(Op(m)) && NeedsRegIds(Op(m)) ==> m1.sig.valC == LoadWord(m.mem, m.pc + 2)
    ensures NeedsValC(Op(m)) && !NeedsRegIds(Op(m)) ==> m1.sig.valC == LoadWord(m.mem, m.pc + 1)
  {
    m1 := FetchStage(m).0;
  }

  /** Decode and execute: valA and valB from the source registers, valE from
      the ALU (not for JXX), the condition codes only for OPQ. */
  lemma Executed(m1: Machine) returns (m3: Machine)
    requires WellFormed(m1)
    ensures m3 == ExecuteStage(DecodeStage(m1)) && WellFormed(m3)
    ensures m3.stat == m1.stat && m3.pc == m1.pc && m3.regs == m1.regs && m3.mem == m1.mem
    ensures var s := m1.sig;
            var a, b := Read(m1.regs, SrcA(s.icode, s.rA)), Read(m1.regs, SrcB(s.icode, s.rB));
            var alu := AluOperands(s.icode, s.ifunc, a, b, s.valC);
            var e := ExecAlu(alu.op, alu.aluA, alu.aluB);
            if s.icode == JXX then m3.sig == s.(valA := a, valB := b) && m3.cc == m1.cc
            else m3.sig == s.(valA := a, valB := b, valE := e)
                 && m3.cc == (if s.icode == OPQ then ConditionCodes(alu.op, alu.aluA, alu.aluB, e) else m1.cc)
  {
    m3 := ExecuteStage(DecodeStage(m1));
  }

  /** NOP and the unassigned opcodes 0xC-0xF only advance PC by one. */
  lemma StepNop(m: Machine)
    requires Ready(m, 1) && (Op(m) == NOP || Op(m) >= 0xC)
    ensures SameState(StepSpec(m), m.(pc := m.pc + 1))
  {
    var m1 := Fetched(m);
    var m3 := Executed(m1);
    var (m4, ok) := MemoryStage(m3);
    Cycle(m, m1, m4, ok);
  }

  /** OPq: rB := rB op rA on 64-bit words, with the condition codes of that
      result; an unknown function code gives 0 with ZF set. */
  lemma StepOpq(m: Machine)
    requires Ready(m, 2) && Op(m) == OPQ
    ensures var r := StepSpec(m);
            var a, b := Read(m.regs, RegA(m)), Read(m.regs, RegB(m));
            var e := ExecAlu(Fn(m), a, b);
            r.stat == AOK && r.pc == m.pc + 2 && r.mem == m.mem
            && r.regs == Write(m.regs, RegB(m), e)
            && r.cc == ConditionCodes(Fn(m), a, b, e)
            && (Fn(m) == ADD ==> ToSigned(e) == AsInt64(ToSigned(b) + ToSigned(a)))
            && (Fn(m) == SUB ==> ToSigned(e) == AsInt64(ToSigned(b) - ToSigned(a)))
            && (Fn(m) == AND ==> e == BitAnd(a, b))
            && (Fn(m) == XOR ==> e == BitXor(a, b))
            && (Fn(m) > XOR ==> e == 0 && r.cc == CC(true, false, false))
  {
    var m1 := Fetched(m);
    var m3 := Executed(m1);
    var (m4, ok) := MemoryStage(m3);
    Cycle(m, m1, m4, ok);
  }

  /** OPq against the source's own flags: the step leaves the condition codes
      both source files compute (with the as-written OF) except on MIN + MIN
      and 0 - MIN, where it sets OF and they leave it clear. */
  lemma StepOpqAsWritten(m: Machine)
    requires Ready(m, 2) && Op(m) == OPQ
    ensures var r := StepSpec(m);
            var a, b := Read(m.regs, RegA(m)), Read(m.regs, RegB(m));
            var e := ExecAlu(Fn(m), a, b);
            var source := ConditionCodesAsWritten(Fn(m), a, b, e);
            (r.cc == source <==> !OverflowDiverges(Fn(m), a, b))
            && r.cc.zf == source.zf && r.cc.sf == source.sf
            && (OverflowDiverges(Fn(m), a, b) ==> r.cc.of && !source.of)
  {
    StepOpq(m);
    ConditionCodesAgree(Fn(m), Read(m.regs, RegA(m)), Read(m.regs, RegB(m)));
  }

  /** RRMOVQ / CMOVXX: rB := rA when the condition holds, else nothing. */
  lemma StepCmov(m: Machine)
    requires Ready(m, 2) && Op(m) == RRMOVQ
    ensures var r := StepSpec(m);
            r.stat == AOK && r.pc == m.pc + 2 && r.mem == m.mem && r.cc == m.cc
            && r.regs == (if Cond(Fn(m), m.cc) then Write(m.regs, RegB(m), Read(m.regs, RegA(m)))
                          else m.regs)
  {
    var m1 := Fetched(m);
    var m3 := Executed(m1);
    var (m4, ok) := MemoryStage(m3);
    Cycle(m, m1, m4, ok);
  }

  /** IRMOVQ: rB := the constant in bytes 2..9. */
  lemma StepIrmovq(m: Machine)
    requires Ready(m, 10) && Op(m) == IRMOVQ
    ensures var r := StepSpec(m);
            r.stat == AOK && r.pc == m.pc + 10 && r.mem == m.mem && r.cc == m.cc
            && r.regs == Write(m.regs, RegB(m), LoadWord(m.mem, m.pc + 2))
  {
    var m1 := Fetched(m);
    var m3 := Executed(m1);
    var (m4, ok) := MemoryStage(m3);
    Cycle(m, m1, m4, ok);
  }

  /** The effective address rB + D, with D signed. */
  function Effective(m: Machine): (addr: Word)
    requires Ready(m, 10)
    ensures ToSigned(addr) == AsInt64(ToSigned(Read(m.regs, RegB(m))) + ToSigned(LoadWord(m.mem, m.pc + 2)))
  {
    SignedOperands(LoadWord(m.mem, m.pc + 2), Read(m.regs, RegB(m)));
    AsUint64(Read(m.regs, RegB(m)) + LoadWord(m.mem, m.pc + 2))
  }

  /** MRMOVQ: rA := M[rB + D]; an address outside memory gives ADR and no write. */
  lemma StepMrmovq(m: Machine)
    requires Ready(m, 10) && Op(m) == MRMOVQ
    ensures var r := StepSpec(m);
            var addr := Effective(m);
            if WordInBounds(addr) then
              r.stat == AOK && r.pc == m.pc + 10 && r.mem == m.mem && r.cc == m.cc
              && r.regs == Write(m.regs, RegA(m), LoadWord(m.mem, addr))
            else SameState(r, m.(stat := ADR))
  {
    var m1 := Fetched(m);
    var m3 := Executed(m1);
    assert m3.sig.valE == Effective(m);
    var (m4, ok) := MemoryStage(m3);
    Cycle(m, m1, m4, ok);
  }

  /** RMMOVQ: M[rB + D] := rA; an address outside memory gives ADR and no write. */
  lemma StepRmmovq(m: Machine)
    requires Ready(m, 10) && Op(m) == RMMOVQ
    ensures var r := StepSpec(m);
            var addr := Effective(m);
            if WordInBounds(addr) then
              r.stat == AOK && r.pc == m.pc + 10 && r.regs == m.regs && r.cc == m.cc
              && r.mem == StoreWord(m.mem, addr, Read(m.regs, RegA(m)))
            else SameState(r, m.(stat := ADR))
  {
    var m1 := Fetched(m);
    var m3 := Executed(m1);
    assert m3.sig.valE == Effective(m);
    var (m4, ok) := MemoryStage(m3);
    Cycle(m, m1, m4, ok);
  }

  /** PUSHQ: M[RSP - 8] := rA (the old value, also for rA = RSP), RSP := RSP - 8. */
  lemma StepPush(m: Machine)
    requires Ready(m, 2) && Op(m) == PUSHQ
    ensures var r := StepSpec(m);
            var sp := AsUint64(Rsp(m) - 8);
            if WordInBounds(sp) then
              r.stat == AOK && r.pc == m.pc + 2 && r.cc == m.cc
              && r.mem == StoreWord(m.mem, sp, Read(m.regs, RegA(m)))
              && r.regs == Write(m.regs, RSP, sp)
            else SameState(r, m.(stat := ADR))
  {
    StackAdjust(Rsp(m));
    var m1 := Fetched(m);
    var m3 := Executed(m1);
    assert m3.sig.valE == AsUint64(Rsp(m) - 8);
    var (m4, ok) := MemoryStage(m3);
    Cycle(m, m1, m4, ok);
  }

  /** POPQ: rA := M[RSP], RSP := RSP + 8, the loaded value winning for rA = RSP. */
  lemma StepPop(m: Machine)
    requires Ready(m, 2) && Op(m) == POPQ
    ensures var r := StepSpec(m);
            if WordInBounds(Rsp(m)) then
              r.stat == AOK && r.pc == m.pc + 2 && r.cc == m.cc && r.mem == m.mem
              && r.regs == Write(Write(m.regs, RSP, Rsp(m) + 8), RegA(m), LoadWord(m.mem, Rsp(m)))
            else SameState(r, m.(stat := ADR))
  {
    var m1 := Fetched(m);
    var m3 := Executed(m1);
    assert m3.sig.valB == Rsp(m);
    var (m4, ok) := MemoryStage(m3);
    Cycle(m, m1, m4, ok);
  }

  /** CALL: push the address of the next instruction, jump to the constant. */
  lemma StepCall(m: Machine)
    requires Ready(m, 9) && Op(m) == CALL
    ensures var r := StepSpec(m);
            var sp := AsUint64(Rsp(m) - 8);
            if WordInBounds(sp) then
              r.stat == AOK && r.pc == LoadWord(m.mem, m.pc + 1) && r.cc == m.cc
              && r.mem == StoreWord(m.mem, sp, m.pc + 9)
              && r.regs == Write(m.regs, RSP, sp)
            else SameState(r, m.(stat := ADR))
  {
    StackAdjust(Rsp(m));
    var m1 := Fetched(m);
    var m3 := Executed(m1);
    var sp := AsUint64(Rsp(m) - 8);
    assert m3.sig.valE == sp && StoreValue(m3.sig) == m.pc + 9;
    var (m4, ok) := MemoryStage(m3);
    Cycle(m, m1, m4, ok);
    if WordInBounds(sp) {
      assert ok && m4 == m3.(mem := StoreWord(m.mem, sp, m.pc + 9));
    } else {
      assert !ok && m4 == m3.(stat := ADR);
    }
  }

  /** Storing valA for CALL, as the TypeScript memory stage does, pushes 0
      rather than the return address, which is never 0. */
  lemma CallStoresAsWritten(m: Machine)
    requires Ready(m, 9) && Op(m) == CALL
    ensures var d := ExecuteStage(DecodeStage(FetchStage(m).0));
            StoreValueAsWritten(d.sig) == 0 && StoreValue(d.sig) == m.pc + 9 != 0
  {
    var m1 := Fetched(m);
    var m3 := Executed(m1);
  }

  /** RET: jump to M[RSP], RSP := RSP + 8. */
  lemma StepRet(m: Machine)
    requires Ready(m, 1) && Op(m) == RET
    ensures var r := StepSpec(m);
            if WordInBounds(Rsp(m)) then
              r.stat == AOK && r.pc == LoadWord(m.mem, Rsp(m)) && r.cc == m.cc && r.mem == m.mem
              && r.regs == Write(m.regs, RSP, Rsp(m) + 8)
            else SameState(r, m.(stat := ADR))
  {
    var m1 := Fetched(m);
    var m3 := Executed(m1);
    assert m3.sig.valB == Rsp(m);
    var (m4, ok) := MemoryStage(m3);
    Cycle(m, m1, m4, ok);
  }

  /** JXX: no ALU work; PC := the constant when the condition holds, else the next instruction. */
  lemma StepJump(m: Machine)
    requires Ready(m, 9) && Op(m) == JXX
    ensures var r := StepSpec(m);
            r.stat == AOK && r.cc == m.cc && r.regs == m.regs && r.mem == m.mem
            && r.pc == (if Cond(Fn(m), m.cc) then LoadWord(m.mem, m.pc + 1) else m.pc + 9)
  {
    var m1 := Fetched(m);
    var m3 := Executed(m1);
    var (m4, ok) := MemoryStage(m3);
    Cycle(m, m1, m4, ok);
  }

  /** Two ranges of addresses [a, a+n) and [b, b+k) do not meet. */
  predicate Disjoint(a: int, n: nat, b: int, k: nat) {
    a + n <= b || b + k <= a
  }

  /** PUSHQ rA then POPQ rB (rB a register other than RSP): RSP is back where it was and rB
      holds the value rA had. */
  lemma PushThenPop(m: Machine)
    requires Ready(m, 4) && Op(m) == PUSHQ && HighNibble(m.mem[m.pc + 2]) == POPQ
    requires IsRegister(HighNibble(m.mem[m.pc + 3])) && HighNibble(m.mem[m.pc + 3]) != RSP
    requires 8 <= Rsp(m) <= MEM_SIZE && Disjoint(Rsp(m) - 8, 8, m.pc, 4)
    ensures var r := StepSpec(StepSpec(m));
            r.stat == AOK && r.pc == m.pc + 4 && r.cc == m.cc
            && Read(r.regs, RSP) == Rsp(m)
            && Read(r.regs, HighNibble(m.mem[m.pc + 3])) == Read(m.regs, RegA(m))
  {
    var sp := Rsp(m) - 8;
    var m1 := StepSpec(m);
    PushLeavesCode(m, m.pc + 2);
    PushLeavesCode(m, m.pc + 3);
    assert Ready(m1, 2) && Op(m1) == POPQ && RegA(m1) == HighNibble(m.mem[m.pc + 3]);
    var rb, v := HighNibble(m.mem[m.pc + 3]), Read(m.regs, RegA(m));
    StepPop(m1);
    LoadStoreSame(m.mem, sp, v);
    assert Rsp(m1) == sp && WordInBounds(sp) && LoadWord(m1.mem, sp) == v;
    var r := StepSpec(m1);
    assert r.regs == Write(Write(m1.regs, RSP, Rsp(m)), rb, v);
  }

  /** After a PUSHQ whose stack slot is in memory: the machine runs on at the
      next instruction, and every byte outside the slot is unchanged. */
  lemma PushLeavesCode(m: Machine, i: int)
    requires Ready(m, 2) && Op(m) == PUSHQ
    requires 8 <= Rsp(m) <= MEM_SIZE && 0 <= i < MEM_SIZE && Disjoint(Rsp(m) - 8, 8, i, 1)
    ensures var r := StepSpec(m);
            r.stat == AOK && r.pc == m.pc + 2 && r.cc == m.cc && Rsp(r) == Rsp(m) - 8
            && r.mem == StoreWord(m.mem, Rsp(m) - 8, Read(m.regs, RegA(m)))
            && r.mem[i] == m.mem[i]
  {
    StepPush(m);
  }

  /** CALL f followed by RET at f: control comes back to the byte after the
      CALL with RSP restored. */
  lemma CallThenRet(m: Machine)
    requires Ready(m, 9) && Op(m) == CALL
    requires 8 <= Rsp(m) <= MEM_SIZE
    requires var f := LoadWord(m.mem, m.pc + 1);
             ByteInBounds(f) && HighNibble(m.mem[f]) == RET && Disjoint(Rsp(m) - 8, 8, f, 1)
    ensures var r := StepSpec(StepSpec(m));
            r.stat == AOK && r.pc == m.pc + 9 && r.cc == m.cc && Read(r.regs, RSP) == Rsp(m)
  {
    var sp := Rsp(m) - 8;
    var f := LoadWord(m.mem, m.pc + 1);
    assert AsUint64(Rsp(m) - 8) == sp && WordInBounds(sp);
    StepCall(m);
    var m1 := StepSpec(m);
    assert m1.stat == AOK && m1.pc == f && m1.cc == m.cc;
    assert m1.mem == StoreWord(m.mem, sp, m.pc + 9) && m1.regs == Write(m.regs, RSP, sp);
    assert m1.mem[f] == m.mem[f];
    assert Ready(m1, 1) && Op(m1) == RET && Rsp(m1) == sp;
    LoadStoreSame(m.mem, sp, m.pc + 9);
    assert LoadWord(m1.mem, Rsp(m1)) == m.pc + 9;
    StepRet(m1);
    var r := StepSpec(m1);
    assert r.stat == AOK && r.pc == m.pc + 9 && r.cc == m.cc && r.regs == Write(m1.regs, RSP, sp + 8);
  }
}
