/** The register file: fifteen 64-bit registers addressed by a four-bit id.
    Id 15 (NONE) names no register: it reads as 0 and writes to it are ignored. */
module Registers {
  import opened Words

  const RAX: Nibble := 0
  const RCX: Nibble := 1
  const RDX: Nibble := 2
  const RBX: Nibble := 3
  const RSP: Nibble := 4
  const RBP: Nibble := 5
  const RSI: Nibble := 6
  const RDI: Nibble := 7
  const R8: Nibble := 8
  const R9: Nibble := 9
  const R10: Nibble := 10
  const R11: Nibble := 11
  const R12: Nibble := 12
  const R13: Nibble := 13
  const R14: Nibble := 14
  const NONE: Nibble := 15

  /** Number of slots in the backing array (the NONE slot included). */
  const SLOTS: nat := 16

  /** The ids that name a register. */
  predicate IsRegister(id: int) {
    0 <= id < 15
  }

  /** All slots zero, as after reset. */
  function Cleared(): (r: seq<Word>)
    ensures |r| == SLOTS && forall k :: 0 <= k < SLOTS ==> r[k] == 0
  {
    seq(SLOTS, _ => 0)
  }

  /** The value getReg returns for id. */
  function Read(regs: seq<Word>, id: int): Word
    requires |regs| == SLOTS
  {
    if IsRegister(id) then regs[id] else 0
  }

  /** The slots after setReg(id, v). */
  function Write(regs: seq<Word>, id: int, v: Word): (r: seq<Word>)
    requires |regs| == SLOTS
    ensures |r| == SLOTS
    ensures IsRegister(id) ==> Read(r, id) == v
    ensures forall k :: k != id ==> Read(r, k) == Read(regs, k)
    ensures !IsRegister(id) ==> r == regs
  {
    if IsRegister(id) then regs[id := v] else regs
  }

  /** NONE and every id outside 0..14 read as zero, whatever was written. */
  lemma NoneReadsZero(regs: seq<Word>, v: Word)
    requires |regs| == SLOTS
    ensures Read(Write(regs, NONE, v), NONE) == 0
    ensures Write(regs, NONE, v) == regs
  {
  }

  /** Of two writes to the same register the later one wins. */
  lemma LaterWriteWins(regs: seq<Word>, id: int, v: Word, u: Word)
    requires |regs| == SLOTS
    ensures Write(Write(regs, id, v), id, u) == Write(regs, id, u)
  {
  }

  class Register {
    const regs: array<Word>

    ghost predicate Valid()
      reads this
    {
      regs.Length == SLOTS
    }

    constructor ()
      ensures Valid() && fresh(regs)
      ensures regs[..] == Cleared()
    {
      regs := new Word[SLOTS](_ => 0);
    }

    /** Zero every slot. */
    method Reset()
      requires Valid()
      modifies regs
      ensures regs[..] == Cleared()
    {
      forall k | 0 <= k < regs.Length {
        regs[k] := 0;
      }
    }

    method SetReg(id: int, val: Word)
      requires Valid()
      modifies regs
      ensures regs[..] == Write(old(regs[..]), id, val)
    {
      if IsRegister(id) {
        regs[id] := val;
      }
    }

    method GetReg(id: int) returns (val: Word)
      requires Valid()
      ensures val == Read(regs[..], id)
    {
      if IsRegister(id) {
        return regs[id];
      }
      return 0;
    }
  }
}
