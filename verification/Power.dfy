// Powering up the memory of the R5 cores (fmsh_partition_load.c): the processors by name, the registers of
// the R5 pair, and what giving one of them its TCM does to both.
module Power {
  // The destination-CPU field of the partition attributes.
  type Cpu = bv32
  const CPU_NONE: Cpu := 0x000
  const A53_0: Cpu := 0x100
  const A53_1: Cpu := 0x200
  const A53_2: Cpu := 0x300
  const A53_3: Cpu := 0x400
  const R5_0: Cpu := 0x500
  const R5_1: Cpu := 0x600
  const R5_L: Cpu := 0x700
  const PMU: Cpu := 0x800

  predicate IsA53(cpu: Cpu) { cpu == A53_0 || cpu == A53_1 || cpu == A53_2 || cpu == A53_3 }
  predicate IsR5(cpu: Cpu) { cpu == R5_0 || cpu == R5_1 || cpu == R5_L }

  // The first or the second core of the pair is meant.
  predicate Covers(cpu: Cpu, second: bool) {
    cpu == R5_L || cpu == if second then R5_1 else R5_0
  }

  // RST_LPD_TOP, RPU_GLBL_CNTL, the two RPU_CFG and CPU_R5_CTRL.
  datatype Rpu = Rpu(reset: bv32, global: bv32, cfg0: bv32, cfg1: bv32, clock: bv32)

  // The read-modify-writes of the source.
  function On(r: bv32, mask: bv32): bv32 { r | mask }
  function Off(r: bv32, mask: bv32): bv32 { r & !mask }
  function And(r: bv32, mask: bv32): bv32 { r & mask }

  // FmshFsbl_PowerUpMemory: the mode of the pair, both or one core halted, out of reset.
  function RpuPowered(r: Rpu, cpu: Cpu): Rpu {
    var global := if cpu == R5_L then On(Off(On(r.global, 0x10), 0x08), 0x40)
                  else Off(Off(On(r.global, 0x08), 0x40), 0x10);
    var cfg0 := if cpu == R5_1 then r.cfg0 else Off(r.cfg0, 0x1);
    var cfg1 := if cpu == R5_0 then r.cfg1 else Off(r.cfg1, 0x1);
    var own := if cpu == R5_0 then Off(r.reset, 0x1)
               else if cpu == R5_1 then Off(r.reset, 0x2)
               else Off(Off(r.reset, 0x1), 0x2);
    Rpu(Off(own, 0x4), global, cfg0, cfg1, On(r.clock, 0x0100_0000))
  }

  // nCPUHALT of a core, its reset bit, and SLSPLIT, SLCLAMP and TCM_COMB of the pair.
  function HaltBit(r: Rpu, second: bool): bv32 { (if second then r.cfg1 else r.cfg0) & 0x1 }
  function HeldBit(r: Rpu, second: bool): bv32 { r.reset & if second then 0x2 else 0x1 }
  function PairMode(r: Rpu): bv32 { And(r.global, 0x58) }

  // The core executes: out of reset and out of halt.
  predicate Runs(r: Rpu, second: bool) {
    HeldBit(r, second) == 0 && HaltBit(r, second) == 1
  }

  // The mode that giving a core its memory sets: split, or in lock step with combined TCM.
  function ModeFor(cpu: Cpu): bv32 { if cpu == R5_L then 0x50 else 0x08 }

  /** A core whose memory is powered up is taken out of reset and halted; the other one keeps its bits. */
  lemma PoweredBits(r: Rpu, cpu: Cpu, second: bool)
    requires IsR5(cpu)
    ensures HeldBit(RpuPowered(r, cpu), second) == if Covers(cpu, second) then 0 else HeldBit(r, second)
    ensures HaltBit(RpuPowered(r, cpu), second) == if Covers(cpu, second) then 0 else HaltBit(r, second)
    ensures PairMode(RpuPowered(r, cpu)) == ModeFor(cpu)
  {
  }

  lemma OffInside(r: bv32, clear: bv32, keep: bv32)
    requires And(clear, keep) == keep
    ensures And(Off(r, clear), keep) == 0
  {
  }

  lemma OffOutside(r: bv32, clear: bv32, keep: bv32)
    requires And(clear, keep) == 0
    ensures And(Off(r, clear), keep) == And(r, keep)
  {
  }

  lemma OnInside(r: bv32, mask: bv32, keep: bv32)
    requires And(mask, keep) == keep
    ensures And(On(r, mask), keep) == keep
  {
  }

  lemma OnOutside(r: bv32, mask: bv32, keep: bv32)
    requires And(mask, keep) == 0
    ensures And(On(r, mask), keep) == And(r, keep)
  {
  }

  /** The bus of the pair comes out of reset and its clock runs; no other bit of the clock register moves. */
  lemma PoweredBus(r: Rpu, cpu: Cpu)
    ensures var p := RpuPowered(r, cpu);
      && And(p.reset, 0x4) == 0 && And(p.clock, 0x0100_0000) == 0x0100_0000
      && And(p.clock, 0xFEFF_FFFF) == And(r.clock, 0xFEFF_FFFF)
  {
    hide On, Off;
    OffInside(if cpu == R5_0 then Off(r.reset, 0x1) else if cpu == R5_1 then Off(r.reset, 0x2)
              else Off(Off(r.reset, 0x1), 0x2), 0x4, 0x4);
    OnInside(r.clock, 0x0100_0000, 0x0100_0000);
    OnOutside(r.clock, 0x0100_0000, 0xFEFF_FFFF);
  }

  /** No bit of the other registers moves but the reset bits, the mode and the halt bits. */
  lemma PoweredFrame(r: Rpu, cpu: Cpu)
    ensures var p := RpuPowered(r, cpu);
      && And(p.reset, 0xFFFF_FFF8) == And(r.reset, 0xFFFF_FFF8)
      && And(p.global, 0xFFFF_FFA7) == And(r.global, 0xFFFF_FFA7)
      && And(p.cfg0, 0xFFFF_FFFE) == And(r.cfg0, 0xFFFF_FFFE) && And(p.cfg1, 0xFFFF_FFFE) == And(r.cfg1, 0xFFFF_FFFE)
  {
    hide On, Off, And;
    Masks();
    OffOutside(r.cfg0, 0x1, 0xFFFF_FFFE);
    OffOutside(r.cfg1, 0x1, 0xFFFF_FFFE);
    ResetFrame(r.reset);
    GlobalFrame(r.global);
  }

  lemma Masks()
    ensures And(0x1, 0xFFFF_FFFE) == And(0x1, 0xFFFF_FFF8) == And(0x2, 0xFFFF_FFF8) == And(0x4, 0xFFFF_FFF8) == 0
    ensures And(0x10, 0xFFFF_FFA7) == And(0x08, 0xFFFF_FFA7) == And(0x40, 0xFFFF_FFA7) == 0
  {
  }

  lemma ResetFrame(r: bv32)
    ensures And(Off(Off(r, 0x1), 0x4), 0xFFFF_FFF8) == And(Off(Off(r, 0x2), 0x4), 0xFFFF_FFF8) == And(r, 0xFFFF_FFF8)
    ensures And(Off(Off(Off(r, 0x1), 0x2), 0x4), 0xFFFF_FFF8) == And(r, 0xFFFF_FFF8)
  {
    hide On, Off, And;
    Masks();
    OffOutside(r, 0x1, 0xFFFF_FFF8);
    OffOutside(r, 0x2, 0xFFFF_FFF8);
    OffOutside(Off(r, 0x1), 0x2, 0xFFFF_FFF8);
    OffOutside(Off(r, 0x1), 0x4, 0xFFFF_FFF8);
    OffOutside(Off(r, 0x2), 0x4, 0xFFFF_FFF8);
    OffOutside(Off(Off(r, 0x1), 0x2), 0x4, 0xFFFF_FFF8);
  }

  lemma GlobalFrame(r: bv32)
    ensures And(On(Off(On(r, 0x10), 0x08), 0x40), 0xFFFF_FFA7) == And(r, 0xFFFF_FFA7)
    ensures And(Off(Off(On(r, 0x08), 0x40), 0x10), 0xFFFF_FFA7) == And(r, 0xFFFF_FFA7)
  {
    hide On, Off, And;
    Masks();
    OnOutside(r, 0x10, 0xFFFF_FFA7);
    OffOutside(On(r, 0x10), 0x08, 0xFFFF_FFA7);
    OnOutside(Off(On(r, 0x10), 0x08), 0x40, 0xFFFF_FFA7);
    OnOutside(r, 0x08, 0xFFFF_FFA7);
    OffOutside(On(r, 0x08), 0x40, 0xFFFF_FFA7);
    OffOutside(Off(On(r, 0x08), 0x40), 0x10, 0xFFFF_FFA7);
  }

  // The registers of the pair. One object for the loader and for the handoff, which both write them.
  class RpuControl {
    var r: Rpu

    constructor (r: Rpu)
      ensures this.r == r
    {
      this.r := r;
    }

    // FmshFsbl_PowerUpMemory.
    method PowerUpMemory(cpu: Cpu)
      requires IsR5(cpu)
      modifies this
      ensures r == RpuPowered(old(r), cpu)
    {
      hide On, Off;
      if cpu == R5_L {
        r := r.(global := On(Off(On(r.global, 0x10), 0x08), 0x40));
      } else {
        r := r.(global := Off(Off(On(r.global, 0x08), 0x40), 0x10));
      }
      if cpu != R5_1 {
        r := r.(cfg0 := Off(r.cfg0, 0x1));
      }
      if cpu != R5_0 {
        r := r.(cfg1 := Off(r.cfg1, 0x1));
      }
      r := r.(clock := On(r.clock, 0x0100_0000));
      var regValue := r.reset;
      if cpu != R5_1 {
        regValue := Off(regValue, 0x1);
      }
      if cpu != R5_0 {
        regValue := Off(regValue, 0x2);
      }
      r := r.(reset := Off(regValue, 0x4));
    }

    // The end of FmshFsbl_TcmInit on the A53.
    method HoldBoth()
      modifies this
      ensures r == BothHeld(old(r))
    {
      r := r.(reset := On(r.reset, 0x3));
    }
  }

  function BothHeld(r: Rpu): Rpu { r.(reset := On(r.reset, 0x3)) }
}
