/** runSimulation: load the text into a fresh memory, snapshot the CPU, then
    step and snapshot while the status is AOK, at most MAX_STEPS times.  A
    snapshot holds what the trace shows (printStateJSON's layout): PC, the
    status code, the fifteen registers as signed numbers, the condition codes
    as 0/1 and every non-zero aligned memory word. */
module Simulation {
  import opened Words
  import opened Registers
  import opened Memories
  import opened Isa
  import opened Processor
  import TsLoader

  const MAX_STEPS: nat := 10000

  datatype Snapshot = Snapshot(pc: nat, stat: int, regs: seq<int>,
                               zf: int, sf: int, of: int, mem: map<nat, Word>)

  /** How runSimulation ends: it throws when the text does not load. */
  datatype Outcome = LoadFailed | Ran(steps: seq<Snapshot>)

  function Bit(b: bool): int {
    if b then 1 else 0
  }

  /** Registers 0 .. n-1, signed, in order. */
  function RegView(regs: seq<Word>, n: nat): (r: seq<int>)
    requires |regs| == SLOTS
    ensures |r| == n
    ensures forall i :: 0 <= i < n ==> r[i] == ToSigned(Read(regs, i))
  {
    if n == 0 then [] else RegView(regs, n - 1) + [ToSigned(Read(regs, n - 1))]
  }

  /** The non-zero words among the first k aligned ones, by address. */
  function MemView(mem: seq<Byte>, k: nat): map<nat, Word>
    requires |mem| == MEM_SIZE && 8 * k <= MEM_SIZE
  {
    if k == 0 then map[]
    else
      var w := MemView(mem, k - 1);
      var a := 8 * (k - 1);
      if LoadWord(mem, a) != 0 then w[a := LoadWord(mem, a)] else w
  }

  /** The snapshot captureState takes of a machine. */
  function SnapshotOf(m: Machine): Snapshot
    requires WellFormed(m)
  {
    // Written |regs| - 1 (= 15, RAX .. R14) and |mem| / 8 rather than as
    // literals, which the verifier would unfold to the end.
    Snapshot(m.pc, m.stat.Code(), RegView(m.regs, |m.regs| - 1),
             Bit(m.cc.zf), Bit(m.cc.sf), Bit(m.cc.of), MemView(m.mem, |m.mem| / 8))
  }

  /** The words scanned so far are exactly the non-zero aligned words below
      address 8 * k, each with its value. */
  lemma {:induction false} MemViewHas(mem: seq<Byte>, k: nat, a: nat)
    requires |mem| == MEM_SIZE && 8 * k <= MEM_SIZE
    ensures a in MemView(mem, k) <==> a < 8 * k && a % 8 == 0 && LoadWord(mem, a) != 0
    ensures a in MemView(mem, k) ==> MemView(mem, k)[a] == LoadWord(mem, a)
  {
    if k > 0 {
      MemViewHas(mem, k - 1, a);
    }
  }

  /** A captured memory map lists exactly the non-zero aligned words, with
      their values. */
  lemma SnapshotMemory(m: Machine, a: nat)
    requires WellFormed(m)
    ensures a in SnapshotOf(m).mem <==> a % 8 == 0 && a <= MEM_SIZE - 8 && LoadWord(m.mem, a) != 0
    ensures a in SnapshotOf(m).mem ==> SnapshotOf(m).mem[a] == LoadWord(m.mem, a)
  {
    MemViewHas(m.mem, |m.mem| / 8, a);
  }

  /** The machines the simulation can be in. */
  type Wf = m: Machine | WellFormed(m) witness Machine(0, AOK, INITIAL_CC, Cleared(), Zeroed(), INITIAL_SIGNALS)

  /** One step, as a value the trace functions can take. */
  function Next(m: Wf): Wf {
    StepSpec(m)
  }

  /** The machines after each step from m, while AOK and fuel lasts.  The
      trace lemmas below hold of any step function, so they take it as a
      parameter; the simulation uses Next. */
  function Trace(next: Wf -> Wf, m: Wf, fuel: nat): (t: seq<Wf>)
    ensures |t| <= fuel
    decreases fuel
  {
    if m.stat != AOK || fuel == 0 then []
    else [next(m)] + Trace(next, next(m), fuel - 1)
  }

  /** The snapshot of each machine, in order. */
  function Snapshots(ms: seq<Wf>): (r: seq<Snapshot>)
    ensures |r| == |ms|
    ensures forall i :: 0 <= i < |ms| ==> r[i] == SnapshotOf(ms[i])
  {
    if ms == [] then [] else [SnapshotOf(ms[0])] + Snapshots(ms[1..])
  }

  /** The machine the CPU constructor leaves over a loaded memory. */
  function Boot(mem: seq<Byte>): (m: Machine)
    requires |mem| == MEM_SIZE
    ensures WellFormed(m)
  {
    Machine(0, AOK, INITIAL_CC, Cleared(), mem, INITIAL_SIGNALS)
  }

  /** What runSimulation returns for a text. */
  function RunSpec(content: string): Outcome {
    var (ok, mem) := TsLoader.LoadSpec(content, Zeroed());
    if !ok then LoadFailed
    else
      var m: Wf := Boot(mem);
      Ran(Snapshots([m] + Trace(Next, m, MAX_STEPS)))
  }

  /** Each machine of a trace is one step on from the one before it (the
      first from m). */
  lemma {:induction false} TraceChain(next: Wf -> Wf, m: Wf, fuel: nat)
    ensures var t := Trace(next, m, fuel);
            (|t| > 0 ==> t[0] == next(m))
            && forall i :: 0 <= i < |t| - 1 ==> t[i + 1] == next(t[i])
    decreases fuel
  {
    if m.stat == AOK && fuel > 0 {
      var n := next(m);
      var rest := Trace(next, n, fuel - 1);
      TraceChain(next, n, fuel - 1);
      var t := [n] + rest;
      forall i | 0 <= i < |t| - 1 ensures t[i + 1] == next(t[i]) {
        if i > 0 {
          assert t[i] == rest[i - 1] && t[i + 1] == rest[i];
        }
      }
    }
  }

  /** Every machine of a trace but the last is AOK; the trace from an AOK
      machine with fuel is not empty; and one shorter than its fuel ends on a
      status other than AOK. */
  lemma {:induction false} TraceStatus(next: Wf -> Wf, m: Wf, fuel: nat)
    ensures var t := Trace(next, m, fuel);
            (forall i :: 0 <= i < |t| - 1 ==> t[i].stat == AOK)
            && (m.stat == AOK && fuel > 0 ==> |t| > 0)
            && (0 < |t| < fuel ==> t[|t| - 1].stat != AOK)
    decreases fuel
  {
    if m.stat == AOK && fuel > 0 {
      var n := next(m);
      var rest := Trace(next, n, fuel - 1);
      TraceStatus(next, n, fuel - 1);
      var t := [n] + rest;
      if rest != [] {
        forall i | 0 <= i < |t| - 1 ensures t[i].stat == AOK {
          if i > 0 {
            assert t[i] == rest[i - 1];
          }
        }
      }
    }
  }

  /** The run from m, with fuel for that many steps: it starts at m, each
      machine is one step on from the one before it, it has at most fuel + 1
      machines (at least two when m is AOK and there is fuel), every machine
      but the last is AOK, and it stops early only on a status other than
      AOK. */
  lemma RunFrom(next: Wf -> Wf, m: Wf, fuel: nat)
    ensures var ms := [m] + Trace(next, m, fuel);
            1 <= |ms| <= fuel + 1 && ms[0] == m
            && (m.stat == AOK && fuel > 0 ==> 2 <= |ms|)
            && (forall k :: 0 <= k < |ms| - 1 ==> ms[k + 1] == next(ms[k]))
            && (forall k :: 0 <= k < |ms| - 1 ==> ms[k].stat == AOK)
            && (|ms| < fuel + 1 ==> ms[|ms| - 1].stat != AOK)
  {
    var tr := Trace(next, m, fuel);
    var ms := [m] + tr;
    if m.stat == AOK && fuel > 0 {
      TraceChain(next, m, fuel);
      TraceStatus(next, m, fuel);
      forall k | 0 <= k < |ms| - 1 ensures ms[k + 1] == next(ms[k]) && ms[k].stat == AOK {
        assert ms[k + 1] == tr[k];
        if k > 0 {
          assert ms[k] == tr[k - 1];
        }
      }
    } else {
      assert tr == [];
    }
  }

  /** The snapshots of a run from an AOK machine: at least two and at most
      fuel + 1 of them, the first is that of m, every one but the last is
      AOK, and the run stops early only on a status other than AOK. */
  lemma RunSnapshots(m: Wf, fuel: nat)
    requires m.stat == AOK && fuel > 0
    ensures var t := Snapshots([m] + Trace(Next, m, fuel));
            2 <= |t| <= fuel + 1 && t[0] == SnapshotOf(m)
            && (forall k :: 0 <= k < |t| - 1 ==> t[k].stat == AOK.Code())
            && (|t| < fuel + 1 ==> t[|t| - 1].stat != AOK.Code())
  {
    RunFrom(Next, m, fuel);
    var ms := [m] + Trace(Next, m, fuel);
    var t := Snapshots(ms);
    forall k | 0 <= k < |t| ensures t[k].stat == ms[k].stat.Code() {
    }
  }

  /** The trace runSimulation returns: it has at least two and at most
      MAX_STEPS + 1 snapshots, starts at PC 0 with status AOK, every snapshot
      but the last is AOK, and it stops early only on a status other than
      AOK. */
  lemma RunShape(content: string)
    requires RunSpec(content).Ran?
    ensures var t := RunSpec(content).steps;
            2 <= |t| <= MAX_STEPS + 1
            && t[0].pc == 0 && t[0].stat == AOK.Code()
            && (forall k :: 0 <= k < |t| - 1 ==> t[k].stat == AOK.Code())
            && (|t| < MAX_STEPS + 1 ==> t[|t| - 1].stat != AOK.Code())
  {
    var m: Wf := Boot(TsLoader.LoadSpec(content, Zeroed()).1);
    RunSnapshots(m, MAX_STEPS);
  }

  /** A program whose first byte is a halt (an empty memory, say) produces
      the start snapshot and one HLT snapshot. */
  lemma HaltAtStart(content: string)
    requires TsLoader.LoadSpec(content, Zeroed()).0
    requires TsLoader.LoadSpec(content, Zeroed()).1[0] == 0
    ensures var t := RunSpec(content).steps;
            |t| == 2 && t[1].stat == HLT.Code() && t[1].pc == 0
  {
    var m := Boot(TsLoader.LoadSpec(content, Zeroed()).1);
    var n := StepSpec(m);
    assert n.stat == HLT && n.pc == 0;
    assert Next(m) == n;
    assert Trace(Next, m, MAX_STEPS) == [n];
  }

  /** captureState. */
  method CaptureState(cpu: Cpu) returns (s: Snapshot)
    requires cpu.Valid()
    ensures s == SnapshotOf(cpu.State())
  {
    var regs := CaptureRegisters(cpu.reg);
    var words := CaptureMemory(cpu.mem);
    var cc := cpu.cc;
    s := Snapshot(cpu.pc, cpu.stat.Code(), regs, Bit(cc.zf), Bit(cc.sf), Bit(cc.of), words);
  }

  /** The register loop of captureState: RAX .. R14, as signed numbers. */
  method CaptureRegisters(reg: Register) returns (regs: seq<int>)
    requires reg.Valid()
    ensures regs == RegView(reg.regs[..], reg.regs.Length - 1)
  {
    regs := [];
    var i := 0;
    while i < 15
      invariant 0 <= i <= 15
      invariant regs == RegView(reg.regs[..], i)
    {
      var v := reg.GetReg(i);
      regs := regs + [ToSigned(v)];
      i := i + 1;
    }
  }

  /** The memory loop of captureState: every aligned word read, the non-zero
      ones kept by address. */
  method CaptureMemory(mem: Memory) returns (words: map<nat, Word>)
    requires mem.Valid()
    ensures words == MemView(mem.data[..], mem.data.Length / 8)
  {
    words := map[];
    var a := 0;
    while a < MEM_SIZE
      invariant 0 <= a <= MEM_SIZE && a % 8 == 0
      invariant words == MemView(mem.data[..], a / 8)
    {
      var v, error := mem.ReadWord(a);
      if !error && v != 0 {
        words := words[a := v];
      }
      a := a + 8;
    }
  }

  /** runSimulation. */
  method RunSimulation(content: string) returns (out: Outcome)
    ensures out == RunSpec(content)
  {
    var mem := new Memory();
    var cpu := new Cpu(mem);
    var loaded := TsLoader.Load(content, mem);
    if !loaded {
      return LoadFailed;
    }
    assert cpu.State() == Boot(TsLoader.LoadSpec(content, Zeroed()).1);
    var steps := Steps(cpu, MAX_STEPS);
    return Ran(steps);
  }

  /** The capture-and-step loop of runSimulation, for at most fuel steps.
      The CPU walks the run [m0] + Trace(Next, m0, fuel) one machine at a
      time, and steps holds the snapshots of the machines passed so far. */
  method Steps(cpu: Cpu, fuel: nat) returns (steps: seq<Snapshot>)
    requires cpu.Valid()
    modifies cpu, cpu.mem.data, cpu.reg.regs
    ensures var m0: Wf := old(cpu.State()); steps == Snapshots([m0] + Trace(Next, m0, fuel))
  {
    ghost var m0: Wf := cpu.State();
    ghost var run: seq<Wf> := [m0] + Trace(Next, m0, fuel);
    var first := CaptureState(cpu);
    steps := [first];
    var n := 0;
    assert run[..1] == [m0];
    while cpu.stat == AOK && n < fuel
      invariant cpu.Valid()
      invariant 0 <= n < |run| && cpu.State() == run[n]
      invariant steps == Snapshots(run[..n + 1])
      decreases fuel - n
    {
      RunContinues(Next, m0, fuel, n);
      StepNext(cpu);
      var snap := CaptureState(cpu);
      SnapshotsExtend(run, n);
      steps := steps + [snap];
      n := n + 1;
    }
    RunEnds(Next, m0, fuel, n);
  }

  /** A machine of the run that is AOK with fuel left is followed by its successor. */
  lemma RunContinues(next: Wf -> Wf, m: Wf, fuel: nat, n: nat)
    requires var ms := [m] + Trace(next, m, fuel); n < |ms| && ms[n].stat == AOK && n < fuel
    ensures var ms := [m] + Trace(next, m, fuel); n + 1 < |ms| && ms[n + 1] == next(ms[n])
  {
    RunFrom(next, m, fuel);
  }

  /** A machine of the run that is not AOK, or has no fuel left, is its last. */
  lemma RunEnds(next: Wf -> Wf, m: Wf, fuel: nat, n: nat)
    requires var ms := [m] + Trace(next, m, fuel); n < |ms| && (ms[n].stat != AOK || n >= fuel)
    ensures var ms := [m] + Trace(next, m, fuel); ms[..n + 1] == ms
  {
    RunFrom(next, m, fuel);
  }

  /** The snapshots of one more machine of a sequence. */
  lemma SnapshotsExtend(ms: seq<Wf>, n: nat)
    requires n + 1 < |ms|
    ensures Snapshots(ms[..n + 2]) == Snapshots(ms[..n + 1]) + [SnapshotOf(ms[n + 1])]
  {
    SnapshotsAppend(ms[..n + 1], ms[n + 1]);
    assert ms[..n + 1] + [ms[n + 1]] == ms[..n + 2];
  }

  /** cpu.step(), seen through Next. */
  method StepNext(cpu: Cpu)
    requires cpu.Valid()
    modifies cpu, cpu.mem.data, cpu.reg.regs
    ensures cpu.Valid() && cpu.State() == Next(old(cpu.State()))
  {
    cpu.Step();
  }

  lemma {:induction false} SnapshotsAppend(ms: seq<Wf>, m: Wf)
    ensures Snapshots(ms + [m]) == Snapshots(ms) + [SnapshotOf(m)]
  {
    if ms == [] {
      assert ms + [m] == [m];
    } else {
      assert (ms + [m])[0] == ms[0];
      assert (ms + [m])[1..] == ms[1..] + [m];
      SnapshotsAppend(ms[1..], m);
    }
  }
}
