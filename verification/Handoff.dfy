// boothandoff.c: vectors, reset and halt bits of the cores that are released, the loop over the
// handoff table, and the final exit.
module Handoff {
  import opened Bytes
  import opened Power
  import opened Header
  import opened Loader

  const UNAVAILABLE_CPU: u32 := 0x1B
  const HANDOFF_CPUID: u32 := 0x34
  const UNSUPPORTED_HANDOFF: u32 := 0x4B
  const PM_INIT: u32 := 0x50
  const PROTECTION_CFG: u32 := 0x51

  const AA32: bv32 := 0x8
  const AA64: bv32 := 0x0

  type Core = j: int | 0 <= j < 4

  function CoreOf(cpu: Cpu): Core {
    if cpu == A53_0 then 0 else if cpu == A53_1 then 1 else if cpu == A53_2 then 2 else 3
  }

  // ACPUj_RESET in CRF_APB_RST_FPD_APU, and AA64N32 in APU_CONFIG_0.
  function CoreBit(j: Core): bv32 { if j == 0 then 0x1 else if j == 1 then 0x2 else if j == 2 then 0x4 else 0x8 }
  // ACPUj_PWRON_RESET.
  function PowerBit(j: Core): bv32 { if j == 0 then 0x400 else if j == 1 then 0x800 else if j == 2 then 0x1000 else 0x2000 }
  // VINITHI of core j in APU_CONFIG_0.
  function HighVectorBit(j: Core): bv32 { if j == 0 then 0x100 else if j == 1 then 0x200 else if j == 2 then 0x400 else 0x800 }

  type u64 = x: int | 0 <= x < 0x1_0000_0000_0000_0000

  type Four = s: seq<u32> | |s| == 4 witness [0, 0, 0, 0]

  datatype Apu = Apu(reset: bv32, config: bv32, clock: bv32, rvbarLow: Four, rvbarHigh: Four)

  // What the loader does to a core, in order. A null write is the store through a register address
  // that no A53 core selected.
  datatype Event = SelectVectors(cpu: Cpu, high: bool) | SetRvbar(cpu: Cpu, address: u64)
                 | CopyVectors(cpu: Cpu, to: u64, from: u64) | NullWrite(address: u64) | Release(cpu: Cpu)

  // A read-modify-write of one bit.
  function Field(r: bv32, bit: bv32, value: bool): bv32 { On(Off(r, bit), if value then bit else 0) }

  function Low(address: u64): u32 { address % 0x1_0000_0000 }
  function High(address: u64): u32 { address / 0x1_0000_0000 }

  lemma ExecIsOneBit(settings: bv32)
    ensures ExecState(settings) == AA64 || ExecState(settings) == AA32
  {
  }

  /** FmshFsbl_UpdateResetVector on values. */

  function ApuVector(a: Apu, cpu: Cpu, exec: bv32, high: bool, address: u64): Apu {
    if !IsA53(cpu) then a
    else
      var j := CoreOf(cpu);
      if exec == AA32 then
        a.(config := Field(a.config, HighVectorBit(j), high))
      else
        a.(rvbarLow := a.rvbarLow[j := Low(address)], rvbarHigh := a.rvbarHigh[j := High(address)])
  }

  // The core held in reset, its vectors selected. In lock step only the first core's bits are touched.
  function RpuHeld(r: Rpu, cpu: Cpu, high: bool): Rpu {
    if cpu == R5_0 || cpu == R5_L then r.(reset := On(r.reset, 0x1), cfg0 := Field(r.cfg0, 0x4, high))
    else if cpu == R5_1 then r.(reset := On(r.reset, 0x2), cfg1 := Field(r.cfg1, 0x4, high))
    else r
  }

  function RpuVector(r: Rpu, cpu: Cpu, high: bool): Rpu {
    var held := RpuHeld(r, cpu, high);
    if IsR5(cpu) && !high then RpuPowered(held, cpu) else held
  }

  function VectorCopy(cpu: Cpu, high: bool, address: u64): Event {
    if high then CopyVectors(cpu, 0xFFFF_0000, Low(address))
    else
      var base: u64 := if cpu == R5_1 then 0xFFE2_0000 else 0xFFE0_0000;
      CopyVectors(cpu, base, if address < 0x40000 then base + address else address)
  }

  function VectorEvents(cpu: Cpu, exec: bv32, high: bool, address: u64): seq<Event> {
    if IsR5(cpu) then [SelectVectors(cpu, high), VectorCopy(cpu, high, address)]
    else if exec == AA32 then (if IsA53(cpu) then [SelectVectors(cpu, high)] else [])
    else if IsA53(cpu) then [SetRvbar(cpu, address)]
    else [NullWrite(address)]
  }

  /** FmshFsbl_SetCpuPwrSettings with FSBL_CPU_SWRST, on values. */

  function ApuReleased(a: Apu, cpu: Cpu, exec: bv32): Apu {
    if !IsA53(cpu) then a
    else
      var j := CoreOf(cpu);
      a.(config := if exec == AA32 then Off(a.config, CoreBit(j)) else a.config,
         clock := On(a.clock, 0x0300_0000),
         reset := Off(a.reset, CoreBit(j) | 0x100 | PowerBit(j)))
  }

  function RpuReleased(r: Rpu, cpu: Cpu): Rpu {
    if !IsR5(cpu) then r
    else
      var p := RpuPowered(r, cpu);
      p.(cfg0 := if cpu == R5_1 then p.cfg0 else On(p.cfg0, 0x1), cfg1 := if cpu == R5_0 then p.cfg1 else On(p.cfg1, 0x1))
  }

  /** One entry of the table, for a core other than the running one. */

  predicate HighVectors(e: HandoffEntry) { e.attributes & 0x80_0000 != 0 }

  function Address(e: HandoffEntry): u64 { e.address }

  function ApuHanded(a: Apu, e: HandoffEntry): Apu {
    ApuReleased(ApuVector(a, e.Cpu(), e.Exec(), HighVectors(e), Address(e)), e.Cpu(), e.Exec())
  }

  function RpuHanded(r: Rpu, e: HandoffEntry): Rpu {
    RpuReleased(RpuVector(r, e.Cpu(), HighVectors(e)), e.Cpu())
  }

  function EventsOf(e: HandoffEntry): seq<Event> {
    VectorEvents(e.Cpu(), e.Exec(), HighVectors(e), Address(e))
    + if IsA53(e.Cpu()) || IsR5(e.Cpu()) then [Release(e.Cpu())] else []
  }

  datatype Cores = Cores(apu: Apu, rpu: Rpu, log: seq<Event>)

  function Handed(c: Cores, e: HandoffEntry): Cores {
    Cores(ApuHanded(c.apu, e), RpuHanded(c.rpu, e), c.log + EventsOf(e))
  }

  /** The loop over the table. */

  // What the loop makes of an entry: the statuses it returns at once, or SUCCESS.
  function EntryStatus(e: HandoffEntry, running: Cpu, a53Exec: bv32): u32 {
    if e.Cpu() != running then
      if !NamedCpu(e.Cpu()) then UNAVAILABLE_CPU
      else if e.Cpu() == PMU then HANDOFF_CPUID
      else SUCCESS
    else if (a53Exec == AA64 && e.Exec() == AA32) || (a53Exec == AA32 && e.Exec() == AA64) then UNSUPPORTED_HANDOFF
    else SUCCESS
  }

  // The cores after the loop has gone through the table, up to the first failure.
  function HandedAll(c: Cores, table: seq<HandoffEntry>, running: Cpu): Cores {
    if table == [] then c
    else
      var rest := HandedAll(c, table[..|table| - 1], running);
      var e := table[|table| - 1];
      if e.Cpu() == running then rest else Handed(rest, e)
  }

  predicate AllGo(table: seq<HandoffEntry>, running: Cpu, a53Exec: bv32) {
    forall k :: 0 <= k < |table| ==> EntryStatus(table[k], running, a53Exec) == SUCCESS
  }

  datatype Exit = Jump(address: u64, aarch32: bool) | Wait | Returned(status: u32)

  // Where the running core goes.
  function ExitOf(table: seq<HandoffEntry>, running: Cpu): Exit {
    if table == [] then Wait
    else
      var e := table[|table| - 1];
      if e.Cpu() == running then Jump(Address(e), e.Exec() == AA32) else ExitOf(table[..|table| - 1], running)
  }

  // Entry k is the first that the loop does not get past.
  ghost predicate Stops(table: seq<HandoffEntry>, running: Cpu, a53Exec: bv32, k: nat) {
    k < |table| && AllGo(table[..k], running, a53Exec) && EntryStatus(table[k], running, a53Exec) != SUCCESS
  }

  // The cores then. A PMU entry fails only after its vector was written.
  function StoppedAt(c: Cores, table: seq<HandoffEntry>, running: Cpu, k: nat): Cores
    requires k < |table|
  {
    var before := HandedAll(c, table[..k], running);
    if table[k].Cpu() == PMU && running != PMU then Handed(before, table[k]) else before
  }

  // What the loop leaves behind.
  ghost predicate LoopResult(c: Cores, after: Cores, x: Exit, table: seq<HandoffEntry>, running: Cpu, a53Exec: bv32) {
    if AllGo(table, running, a53Exec) then
      x == ExitOf(table, running) && after == HandedAll(c, table, running)
    else
      exists k: nat :: Stops(table, running, a53Exec, k) && x == Returned(EntryStatus(table[k], running, a53Exec))
        && after == StoppedAt(c, table, running, k)
  }

  // Before the loop reaches entry k.
  ghost predicate LoopAt(c: Cores, now: Cores, x: Exit, table: seq<HandoffEntry>, running: Cpu, a53Exec: bv32, k: nat) {
    && k <= |table| && AllGo(table[..k], running, a53Exec)
    && x == ExitOf(table[..k], running) && now == HandedAll(c, table[..k], running)
  }

  lemma LoopNext(c: Cores, now: Cores, x: Exit, table: seq<HandoffEntry>, running: Cpu, a53Exec: bv32, k: nat)
    requires k < |table| && LoopAt(c, now, x, table, running, a53Exec, k)
    requires EntryStatus(table[k], running, a53Exec) == SUCCESS
    ensures LoopAt(c, if table[k].Cpu() != running then Handed(now, table[k]) else now,
                   if table[k].Cpu() == running then Jump(Address(table[k]), table[k].Exec() == AA32) else x,
                   table, running, a53Exec, k + 1)
  {
    hide EntryStatus, Handed;
    assert table[..k + 1][..k] == table[..k];
    assert forall i :: 0 <= i < k ==> table[..k + 1][i] == table[..k][i];
  }

  lemma LoopFails(c: Cores, now: Cores, x: Exit, table: seq<HandoffEntry>, running: Cpu, a53Exec: bv32, k: nat)
    requires k < |table| && LoopAt(c, now, x, table, running, a53Exec, k)
    requires EntryStatus(table[k], running, a53Exec) != SUCCESS
    ensures LoopResult(c, if table[k].Cpu() == PMU && running != PMU then Handed(now, table[k]) else now,
                       Returned(EntryStatus(table[k], running, a53Exec)), table, running, a53Exec)
  {
  }

  lemma LoopEnds(c: Cores, now: Cores, x: Exit, table: seq<HandoffEntry>, running: Cpu, a53Exec: bv32)
    requires LoopAt(c, now, x, table, running, a53Exec, |table|)
    ensures LoopResult(c, now, x, table, running, a53Exec)
  {
    assert table[..|table|] == table;
  }

  class Soc {
    const rpu: RpuControl
    var apu: Apu
    var log: seq<Event>

    function View(): Cores
      reads this, rpu
    {
      Cores(apu, rpu.r, log)
    }

    constructor (apu: Apu, rpu: RpuControl)
      ensures this.rpu == rpu && View() == Cores(apu, rpu.r, [])
    {
      this.apu := apu;
      this.rpu := rpu;
      log := [];
    }

    // The reset and vector-location bits.
    method SelectVectorLocation(cpu: Cpu, exec: bv32, high: bool)
      modifies this, rpu
      ensures rpu.r == RpuHeld(old(rpu.r), cpu, high)
      ensures apu == if exec == AA32 then ApuVector(old(apu), cpu, exec, high, 0) else old(apu)
      ensures log == old(log) + if IsR5(cpu) || (IsA53(cpu) && exec == AA32) then [SelectVectors(cpu, high)] else []
    {
      hide On, Field, HighVectorBit, CoreOf;
      if cpu == R5_0 || cpu == R5_L {
        rpu.r := rpu.r.(reset := On(rpu.r.reset, 0x1));
        rpu.r := rpu.r.(cfg0 := Field(rpu.r.cfg0, 0x4, high));
        log := log + [SelectVectors(cpu, high)];
      } else if cpu == R5_1 {
        rpu.r := rpu.r.(reset := On(rpu.r.reset, 0x2));
        rpu.r := rpu.r.(cfg1 := Field(rpu.r.cfg1, 0x4, high));
        log := log + [SelectVectors(cpu, high)];
      } else if IsA53(cpu) && exec == AA32 {
        apu := apu.(config := Field(apu.config, HighVectorBit(CoreOf(cpu)), high));
        log := log + [SelectVectors(cpu, high)];
      }
    }

    // The vector table of an R5.
    method CopyVectorTable(cpu: Cpu, high: bool, address: u64)
      requires IsR5(cpu)
      modifies rpu, this`log
      ensures rpu.r == if high then old(rpu.r) else RpuPowered(old(rpu.r), cpu)
      ensures log == old(log) + [VectorCopy(cpu, high, address)]
    {
      hide RpuPowered;
      if !high {
        rpu.PowerUpMemory(cpu);
        var base: u64 := if cpu == R5_1 then 0xFFE2_0000 else 0xFFE0_0000;
        if address < 0x40000 {
          log := log + [CopyVectors(cpu, base, base + address)];
        } else {
          log := log + [CopyVectors(cpu, base, address)];
        }
      } else {
        log := log + [CopyVectors(cpu, 0xFFFF_0000, Low(address))];
      }
    }

    // The 64-bit reset address of an A53.
    method WriteResetAddress(cpu: Cpu, address: u64)
      modifies this`apu, this`log
      ensures apu == ApuVector(old(apu), cpu, AA64, false, address)
      ensures log == old(log) + if IsA53(cpu) then [SetRvbar(cpu, address)] else [NullWrite(address)]
    {
      hide Low, High, CoreOf;
      if IsA53(cpu) {
        var j := CoreOf(cpu);
        apu := apu.(rvbarLow := apu.rvbarLow[j := Low(address)]);
        apu := apu.(rvbarHigh := apu.rvbarHigh[j := High(address)]);
        log := log + [SetRvbar(cpu, address)];
      } else {
        log := log + [NullWrite(address)];
      }
    }

    // FmshFsbl_UpdateResetVector.
    method UpdateResetVector(address: u64, cpuSettings: bv32, high: bool)
      modifies this, rpu
      ensures var cpu, exec := CpuOf(cpuSettings), ExecState(cpuSettings);
        View() == Cores(ApuVector(old(apu), cpu, exec, high, address), RpuVector(old(rpu.r), cpu, high),
                        old(log) + VectorEvents(cpu, exec, high, address))
    {
      ExecIsOneBit(cpuSettings);
      hide On, Field, Low, High, HighVectorBit, CpuOf, ExecState, CoreOf, RpuPowered, VectorCopy;
      var cpuId, execState := CpuOf(cpuSettings), ExecState(cpuSettings);
      SelectVectorLocation(cpuId, execState, high);
      if IsR5(cpuId) {
        CopyVectorTable(cpuId, high, address);
      }
      if !IsR5(cpuId) && execState == AA64 {
        WriteResetAddress(cpuId, address);
      }
    }

    // FmshFsbl_SetCpuPwrSettings, for FSBL_CPU_SWRST.
    method SetCpuPwrSettings(cpuSettings: bv32) returns (status: u32)
      modifies this, rpu
      ensures var cpu, exec := CpuOf(cpuSettings), ExecState(cpuSettings);
        && status == (if IsA53(cpu) || IsR5(cpu) then SUCCESS else HANDOFF_CPUID)
        && View() == Cores(ApuReleased(old(apu), cpu, exec), RpuReleased(old(rpu.r), cpu),
                           old(log) + if status == SUCCESS then [Release(cpu)] else [])
    {
      hide On, Off, Field, Low, High, HighVectorBit, CoreBit, PowerBit, CpuOf, ExecState, CoreOf, RpuPowered;
      var cpuId, execState := CpuOf(cpuSettings), ExecState(cpuSettings);
      status := SUCCESS;
      if IsA53(cpuId) {
        var j := CoreOf(cpuId);
        if execState == AA32 {
          apu := apu.(config := Off(apu.config, CoreBit(j)));
        }
        apu := apu.(clock := On(apu.clock, 0x0300_0000));
        apu := apu.(reset := Off(apu.reset, CoreBit(j) | 0x100 | PowerBit(j)));
        log := log + [Release(cpuId)];
      } else if IsR5(cpuId) {
        rpu.PowerUpMemory(cpuId);
        if cpuId != R5_1 {
          rpu.r := rpu.r.(cfg0 := On(rpu.r.cfg0, 0x1));
        }
        if cpuId != R5_0 {
          rpu.r := rpu.r.(cfg1 := On(rpu.r.cfg1, 0x1));
        }
        log := log + [Release(cpuId)];
      } else {
        status := HANDOFF_CPUID;
      }
    }

    // BootHandoff with early handoff compiled out. Wait and Jump stand for the exit routine, which
    // does not come back.
    method BootHandoff(table: seq<HandoffEntry>, running: Cpu, a53Exec: bv32, p: Platform) returns (exit: Exit)
      modifies this, rpu
      ensures !p.masterOnlyReset && p.pmInit != SUCCESS ==> exit == Returned(PM_INIT) && View() == old(View())
      ensures p.Ready() && !p.protected ==> exit == Returned(PROTECTION_CFG) && View() == old(View())
      ensures p.Ready() && p.protected && p.jtag ==> exit == Wait && View() == old(View())
      ensures p.Ready() && p.protected && !p.jtag ==>
        LoopResult(old(View()), View(), exit, table, running, a53Exec)
    {
      if !p.masterOnlyReset {
        if p.pmInit != SUCCESS {
          return Returned(PM_INIT);
        }
      }
      if !p.protected {
        return Returned(PROTECTION_CFG);
      }
      if p.jtag {
        return Wait;
      }
      exit := ReleaseCores(table, running, a53Exec);
    }

    method ReleaseCores(table: seq<HandoffEntry>, running: Cpu, a53Exec: bv32) returns (exit: Exit)
      modifies this, rpu
      ensures LoopResult(old(View()), View(), exit, table, running, a53Exec)
    {
      var cpuIndex := 0;
      exit := Wait;
      assert LoopAt(View(), View(), exit, table, running, a53Exec, 0);
      while cpuIndex < |table|
        invariant cpuIndex <= |table|
        invariant LoopAt(old(View()), View(), exit, table, running, a53Exec, cpuIndex)
      {
        hide LoopAt, LoopResult, EntryStatus, Handed, Address, HandoffEntry.Exec, HandoffEntry.Cpu;
        ghost var before := View();
        var e := table[cpuIndex];
        var status := HandOne(e, running, a53Exec);
        if status != SUCCESS {
          LoopFails(old(View()), before, exit, table, running, a53Exec, cpuIndex);
          return Returned(status);
        }
        LoopNext(old(View()), before, exit, table, running, a53Exec, cpuIndex);
        if e.Cpu() == running {
          exit := Jump(Address(e), e.Exec() == AA32);
        }
        cpuIndex := cpuIndex + 1;
      }
      LoopEnds(old(View()), View(), exit, table, running, a53Exec);
    }

    // The body of the loop.
    method HandOne(e: HandoffEntry, running: Cpu, a53Exec: bv32) returns (status: u32)
      modifies this, rpu
      ensures status == EntryStatus(e, running, a53Exec)
      ensures status == SUCCESS ==> View() == if e.Cpu() != running then Handed(old(View()), e) else old(View())
      ensures status != SUCCESS ==>
        View() == if e.Cpu() == PMU && running != PMU then Handed(old(View()), e) else old(View())
    {
      hide VectorEvents, ApuVector, RpuVector, ApuReleased, RpuReleased;
      PmuIsNoCore(e);
      var cpuId, execState := e.Cpu(), e.Exec();
      if cpuId != running {
        if !NamedCpu(cpuId) {
          return UNAVAILABLE_CPU;
        }
        UpdateResetVector(Address(e), e.cpuSettings, HighVectors(e));
        status := SetCpuPwrSettings(e.cpuSettings);
      } else if a53Exec == AA64 && execState == AA32 {
        status := UNSUPPORTED_HANDOFF;
      } else if a53Exec == AA32 && execState == AA64 {
        status := UNSUPPORTED_HANDOFF;
      } else {
        status := SUCCESS;
      }
    }
  }

  lemma PmuIsNoCore(e: HandoffEntry)
    ensures NamedCpu(e.Cpu()) <==> IsA53(e.Cpu()) || IsR5(e.Cpu()) || e.Cpu() == PMU
    ensures !IsA53(PMU) && !IsR5(PMU)
  {
  }

  // What the platform answers before the loop: power management, and whether protection was applied.
  datatype Platform = Platform(masterOnlyReset: bool, pmInit: u32, protected: bool, jtag: bool)
  {
    predicate Ready() { masterOnlyReset || pmInit == SUCCESS }
  }
}
