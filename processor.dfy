/** The sequential (SEQ) processor: one instruction per step, through fetch,
    decode, execute, memory, write-back and PC update.

    The pure functions FetchStage … UpdatePCStage and StepSpec say what each
    stage does to the whole machine (architectural state plus the per-cycle
    signals icode … valM); the class Cpu holds that state in fields, a Memory
    and a Register, and its stage methods are proved to do exactly that.

    Sequencing is that of the TypeScript port: a failed fetch or memory access
    sets ADR and ends the cycle before write-back and PC update, and write-back
    does nothing unless the status is AOK.  CALL pushes its return address valP. */
module Processor {
  import opened Words
  import opened Registers
  import opened Memories
  import opened Isa

  /** The per-cycle signals held in the CPU's fields. */
  datatype Signals = Signals(icode: Nibble, ifunc: Nibble, rA: Nibble, rB: Nibble,
                             valC: Word, valP: nat,
                             valA: Word, valB: Word, valE: Word, valM: Word)

  const INITIAL_SIGNALS: Signals := Signals(NOP, 0, NONE, NONE, 0, 0, 0, 0, 0, 0)

  /** Everything a cycle reads or writes. */
  datatype Machine = Machine(pc: nat, stat: Stat, cc: CC, regs: seq<Word>, mem: seq<Byte>,
                             sig: Signals)

  predicate WellFormed(m: Machine) {
    |m.regs| == SLOTS && |m.mem| == MEM_SIZE
  }

  /** Fetch: read the instruction byte at PC, then the register byte and valC
      when the opcode has them; valP is the address after the instruction
      (PC itself for HALT).  Any read out of bounds sets ADR and fails. */
  function FetchStage(m: Machine): (r: (Machine, bool))
    requires WellFormed(m)
    ensures WellFormed(r.0)
    ensures r.0.pc == m.pc && r.0.cc == m.cc && r.0.regs == m.regs && r.0.mem == m.mem
    ensures !r.1 ==> r.0.stat == ADR
    ensures r.1 ==> ByteInBounds(m.pc) && r.0.sig.icode == HighNibble(m.mem[m.pc])
                    && r.0.sig.ifunc == LowNibble(m.mem[m.pc])
    ensures r.1 ==> r.0.stat == (if r.0.sig.icode == HALT then HLT else m.stat)
    ensures r.1 && r.0.sig.icode != HALT ==>
              r.0.sig.valP == m.pc + 1 + (if NeedsRegIds(r.0.sig.icode) then 1 else 0)
                                       + (if NeedsValC(r.0.sig.icode) then 8 else 0)
              && r.0.sig.valP <= MEM_SIZE
    ensures r.1 && r.0.sig.icode == HALT ==> r.0.sig.valP == m.pc
  {
    if !ByteInBounds(m.pc) then (m.(stat := ADR), false)
    else
      var b0 := m.mem[m.pc];
      var icode := HighNibble(b0);
      var s1 := m.sig.(icode := icode, ifunc := LowNibble(b0), valP := m.pc + 1);
      if icode == HALT then (m.(stat := HLT, sig := s1.(valP := m.pc)), true)
      else if NeedsRegIds(icode) && !ByteInBounds(s1.valP) then (m.(stat := ADR, sig := s1), false)
      else
        var s2 :=
          if NeedsRegIds(icode) then
            var b1 := m.mem[s1.valP];
            s1.(rA := HighNibble(b1), rB := LowNibble(b1), valP := s1.valP + 1)
          else s1.(rA := NONE, rB := NONE);
        if NeedsValC(icode) && !WordInBounds(s2.valP) then (m.(stat := ADR, sig := s2), false)
        else if NeedsValC(icode) then
          (m.(sig := s2.(valC := LoadWord(m.mem, s2.valP), valP := s2.valP + 8)), true)
        else (m.(sig := s2), true)
  }

  /** Decode: valA and valB from the registers the opcode names. */
  function DecodeStage(m: Machine): (r: Machine)
    requires WellFormed(m)
    ensures WellFormed(r)
  {
    m.(sig := m.sig.(valA := Read(m.regs, SrcA(m.sig.icode, m.sig.rA)),
                     valB := Read(m.regs, SrcB(m.sig.icode, m.sig.rB))))
  }

  /** Execute: nothing for JXX; otherwise valE from the ALU, and for OPQ the
      condition codes. */
  function ExecuteStage(m: Machine): (r: Machine)
    requires WellFormed(m)
    ensures WellFormed(r)
  {
    if m.sig.icode == JXX then m
    else
      var s := AluOperands(m.sig.icode, m.sig.ifunc, m.sig.valA, m.sig.valB, m.sig.valC);
      var e := ExecAlu(s.op, s.aluA, s.aluB);
      m.(sig := m.sig.(valE := e),
         cc := if m.sig.icode == OPQ then ConditionCodes(s.op, s.aluA, s.aluB, e) else m.cc)
  }

  /** The word RMMOVQ, PUSHQ and CALL store: valA, except the return address
      valP for CALL (as a 64-bit word, the C++ conversion from addr_t). */
  function StoreValue(sig: Signals): Word {
    if sig.icode == CALL then AsUint64(sig.valP) else sig.valA
  }

  /** The word the TypeScript memory stage stores for all three: valA, which
      decode leaves 0 for CALL (it reads no register A). */
  function StoreValueAsWritten(sig: Signals): Word {
    sig.valA
  }

  /** Memory: RMMOVQ, PUSHQ and CALL store at valE; MRMOVQ loads valM from
      valE, POPQ and RET from valB (the stack pointer before the step).  An
      access out of bounds sets ADR and fails, leaving memory unchanged. */
  function MemoryStage(m: Machine): (r: (Machine, bool))
    requires WellFormed(m)
    ensures WellFormed(r.0)
    ensures r.0.pc == m.pc && r.0.cc == m.cc && r.0.regs == m.regs
    ensures r.1 ==> r.0.stat == m.stat
    ensures !r.1 ==> r.0.stat == ADR && r.0.mem == m.mem
  {
    var icode := m.sig.icode;
    if icode == RMMOVQ || icode == PUSHQ || icode == CALL then
      if WordInBounds(m.sig.valE) then (m.(mem := StoreWord(m.mem, m.sig.valE, StoreValue(m.sig))), true)
      else (m.(stat := ADR), false)
    else if icode == MRMOVQ || icode == POPQ || icode == RET then
      var addr := if icode == MRMOVQ then m.sig.valE else m.sig.valB;
      if WordInBounds(addr) then (m.(sig := m.sig.(valM := LoadWord(m.mem, addr))), true)
      else (m.(stat := ADR), false)
    else (m, true)
  }

  /** Write-back, only while AOK: conditional moves write valE to rB when the
      condition holds; IRMOVQ and OPQ write valE to rB; MRMOVQ writes valM to
      rA; PUSHQ, POPQ, CALL and RET write valE to RSP, and POPQ then valM to rA. */
  function WritebackStage(m: Machine): (r: Machine)
    requires WellFormed(m)
    ensures WellFormed(r)
    ensures r.pc == m.pc && r.stat == m.stat && r.cc == m.cc && r.mem == m.mem && r.sig == m.sig
  {
    if m.stat != AOK then m
    else
      var s := m.sig;
      var regs :=
        if s.icode == RRMOVQ then (if Cond(s.ifunc, m.cc) then Write(m.regs, s.rB, s.valE) else m.regs)
        else if s.icode == IRMOVQ || s.icode == OPQ then Write(m.regs, s.rB, s.valE)
        else if s.icode == MRMOVQ then Write(m.regs, s.rA, s.valM)
        else if s.icode == POPQ then Write(Write(m.regs, RSP, s.valE), s.rA, s.valM)
        else if s.icode == PUSHQ || s.icode == CALL || s.icode == RET then Write(m.regs, RSP, s.valE)
        else m.regs;
      m.(regs := regs)
  }

  /** PC update, only while AOK: JXX to valC when the condition holds, CALL to
      valC, RET to valM, everything else to valP. */
  function UpdatePCStage(m: Machine): (r: Machine)
    ensures r.stat == m.stat && r.cc == m.cc && r.regs == m.regs && r.mem == m.mem && r.sig == m.sig
  {
    if m.stat != AOK then m
    else
      var s := m.sig;
      var pc :=
        if s.icode == JXX then (if Cond(s.ifunc, m.cc) then s.valC else s.valP)
        else if s.icode == CALL then s.valC
        else if s.icode == RET then s.valM
        else s.valP;
      m.(pc := pc)
  }

  /** One cycle; a machine whose status is not AOK does not move. */
  function StepSpec(m: Machine): (r: Machine)
    requires WellFormed(m)
    ensures WellFormed(r)
    ensures m.stat != AOK ==> r == m
    ensures r.stat != INS
            || m.stat == INS
  {
    if m.stat != AOK then m
    else
      var (m1, fetched) := FetchStage(m);
      if !fetched then m1
      else
        var m3 := ExecuteStage(DecodeStage(m1));
        var (m4, stored) := MemoryStage(m3);
        if !stored then m4
        else UpdatePCStage(WritebackStage(m4))
  }

  class Cpu {
    const mem: Memory
    const reg: Register

    var pc: nat
    var stat: Stat
    var cc: CC

    var icode: Nibble
    var ifunc: Nibble
    var rA: Nibble
    var rB: Nibble
    var valC: Word
    var valP: nat
    var valA: Word
    var valB: Word
    var valE: Word
    var valM: Word

    ghost predicate Valid()
      reads this, mem, reg
    {
      mem.Valid() && reg.Valid()
    }

    function Sig(): Signals
      reads this
    {
      Signals(icode, ifunc, rA, rB, valC, valP, valA, valB, valE, valM)
    }

    /** The machine the fields hold. */
    function State(): (m: Machine)
      requires Valid()
      reads this, mem, mem.data, reg, reg.regs
      ensures WellFormed(m)
    {
      Machine(pc, stat, cc, reg.regs[..], mem.data[..], Sig())
    }

    /** A CPU over the given memory, with fresh cleared registers. */
    constructor (memory: Memory)
      requires memory.Valid()
      ensures Valid() && mem == memory && fresh(reg) && fresh(reg.regs)
      ensures State() == Machine(0, AOK, INITIAL_CC, Cleared(), memory.data[..], INITIAL_SIGNALS)
    {
      mem := memory;
      reg := new Register();
      pc, stat, cc := 0, AOK, INITIAL_CC;
      icode, ifunc, rA, rB := NOP, 0, NONE, NONE;
      valC, valP, valA, valB, valE, valM := 0, 0, 0, 0, 0, 0;
    }

    /** Clear the registers, reset the condition codes, PC 0, status AOK. */
    method Reset()
      requires Valid()
      modifies this, reg.regs
      ensures Valid()
      ensures State() == old(State()).(pc := 0, stat := AOK, cc := INITIAL_CC, regs := Cleared())
    {
      reg.Reset();
      cc := INITIAL_CC;
      pc := 0;
      stat := AOK;
    }

    /** Replace all the signals at once. */
    method SetSignals(s: Signals)
      modifies this
      ensures Sig() == s && pc == old(pc) && stat == old(stat) && cc == old(cc)
    {
      icode, ifunc, rA, rB := s.icode, s.ifunc, s.rA, s.rB;
      valC, valP, valA, valB, valE, valM := s.valC, s.valP, s.valA, s.valB, s.valE, s.valM;
    }

    method Fetch() returns (ok: bool)
      requires Valid()
      modifies this
      ensures Valid()
      ensures (State(), ok) == FetchStage(old(State()))
    {
      var b0, error := mem.ReadByte(pc);
      if error {
        stat := ADR;
        return false;
      }
      var code := HighNibble(b0);
      var s := Sig().(icode := code, ifunc := LowNibble(b0), valP := pc + 1);
      if code == HALT {
        SetSignals(s.(valP := pc));
        stat := HLT;
        return true;
      }
      if NeedsRegIds(code) {
        var b1, error1 := mem.ReadByte(s.valP);
        if error1 {
          SetSignals(s);
          stat := ADR;
          return false;
        }
        s := s.(rA := HighNibble(b1), rB := LowNibble(b1), valP := s.valP + 1);
      } else {
        s := s.(rA := NONE, rB := NONE);
      }
      if NeedsValC(code) {
        var w, error2 := mem.ReadWord(s.valP);
        if error2 {
          SetSignals(s);
          stat := ADR;
          return false;
        }
        s := s.(valC := w, valP := s.valP + 8);
      }
      SetSignals(s);
      return true;
    }

    method Decode()
      requires Valid()
      modifies this
      ensures Valid()
      ensures State() == DecodeStage(old(State()))
    {
      var srcA := SrcA(icode, rA);
      var srcB := SrcB(icode, rB);
      valA := reg.GetReg(srcA);
      valB := reg.GetReg(srcB);
    }

    method Execute()
      requires Valid()
      modifies this
      ensures Valid()
      ensures State() == ExecuteStage(old(State()))
      ensures var s := AluOperands(icode, ifunc, valA, valB, valC);
              icode == OPQ ==>
                (cc == ConditionCodesAsWritten(s.op, s.aluA, s.aluB, valE) <==> !OverflowDiverges(s.op, s.aluA, s.aluB))
    {
      if icode == JXX {
        return;
      }
      var setup := AluOperands(icode, ifunc, valA, valB, valC);
      valE := ExecAlu(setup.op, setup.aluA, setup.aluB);
      if icode == OPQ {
        cc := ConditionCodes(setup.op, setup.aluA, setup.aluB, valE);
        ConditionCodesAgree(setup.op, setup.aluA, setup.aluB);
      }
    }

    method MemoryAccess() returns (ok: bool)
      requires Valid()
      modifies this, mem.data
      ensures Valid()
      ensures (State(), ok) == MemoryStage(old(State()))
    {
      if icode == RMMOVQ || icode == PUSHQ || icode == CALL {
        var failed := mem.WriteWord(valE, StoreValue(Sig()));
        if failed {
          stat := ADR;
          return false;
        }
      } else if icode == MRMOVQ {
        var w, error := mem.ReadWord(valE);
        if error {
          stat := ADR;
          return false;
        }
        valM := w;
      } else if icode == POPQ || icode == RET {
        var w, error := mem.ReadWord(valB);
        if error {
          stat := ADR;
          return false;
        }
        valM := w;
      }
      return true;
    }

    /** Returns false, writing nothing, unless the status is AOK. */
    method Writeback() returns (done: bool)
      requires Valid()
      modifies reg.regs
      ensures Valid()
      ensures done == (stat == AOK)
      ensures State() == WritebackStage(old(State()))
    {
      if stat == INS || stat == HLT || stat == ADR {
        return false;
      }
      if icode == RRMOVQ {
        if Cond(ifunc, cc) {
          reg.SetReg(rB, valE);
        }
      } else if icode == IRMOVQ || icode == OPQ {
        reg.SetReg(rB, valE);
      } else if icode == MRMOVQ {
        reg.SetReg(rA, valM);
      } else if icode == PUSHQ || icode == POPQ || icode == CALL || icode == RET {
        reg.SetReg(RSP, valE);
        if icode == POPQ {
          reg.SetReg(rA, valM);
        }
      }
      return true;
    }

    method UpdatePC()
      requires Valid()
      modifies this
      ensures Valid()
      ensures State() == UpdatePCStage(old(State()))
    {
      if stat != AOK {
        return;
      }
      if icode == JXX {
        pc := if Cond(ifunc, cc) then valC else valP;
      } else if icode == CALL {
        pc := valC;
      } else if icode == RET {
        pc := valM;
      } else {
        pc := valP;
      }
    }

    /** One instruction cycle. */
    method Step()
      requires Valid()
      modifies this, mem.data, reg.regs
      ensures Valid()
      ensures State() == StepSpec(old(State()))
    {
      if stat == AOK {
        var fetched := Fetch();
        if !fetched {
          return;
        }
        Decode();
        Execute();
        var stored := MemoryAccess();
        if !stored {
          return;
        }
        var _ := Writeback();
        UpdatePC();
      }
    }
  }
}
