// Tightly-coupled memory of the R5 cores: the remap of load addresses to the global map, the ECC
// initialisation that fills the banks, and which loaded images a later initialisation wipes.
module Tcm {
  import opened Bytes
  import opened Power

  const BANK: u32 := 0x10000
  const BTCM: u32 := 0x20000
  const R50_ATCM: u32 := 0xFFE0_0000
  const R50_BTCM: u32 := 0xFFE2_0000
  const R51_ATCM: u32 := 0xFFE9_0000
  const R51_BTCM: u32 := 0xFFEB_0000

  predicate InBank(address: u32) {
    address < BANK || BTCM <= address < BTCM + BANK
  }

  // The address, as the core sees it, lies in its TCM.
  predicate InTcm(cpu: Cpu, address: u32) {
    if cpu == R5_0 || cpu == R5_1 then InBank(address)
    else cpu == R5_L && address < 0x40000
  }

  datatype Placement = Remapped(at: u32) | Direct(at: u32) | DoesNotFit

  // FmshFsbl_GetLoadAddress.
  function GetLoadAddress(cpu: Cpu, address: u32, length: u32): Placement {
    if cpu == R5_0 && InBank(address) then
      if length > BANK then DoesNotFit else Remapped(R50_ATCM + address)
    else if cpu == R5_1 && InBank(address) then
      if length > BANK then DoesNotFit else Remapped(R51_ATCM + address)
    else if cpu == R5_L && address < 0x40000 then
      if length > 0x40000 then DoesNotFit else Remapped(R50_ATCM + address)
    else Direct(address)
  }

  /** Where an image goes: the addresses of R5-0 and of the pair from 0xFFE00000 on, those of R5-1 from 0xFFE90000
      on, and every other address as it is. */
  lemma PlacedAt(cpu: Cpu, address: u32, length: u32)
    ensures match GetLoadAddress(cpu, address, length)
      case Remapped(at) =>
        && InTcm(cpu, address)
        && at == address + (if cpu == 0x600 then 0xFFE9_0000 else 0xFFE0_0000)
        && (cpu == 0x500 || cpu == 0x600 ==> length <= 0x1_0000 && (address < 0x1_0000 || 0x2_0000 <= address < 0x3_0000))
        && (cpu != 0x500 && cpu != 0x600 ==> cpu == 0x700 && length <= 0x4_0000 && address < 0x4_0000)
      case Direct(at) => at == address && !InTcm(cpu, address)
      case DoesNotFit => InTcm(cpu, address) && length > if cpu == 0x700 then 0x4_0000 else 0x1_0000
  {
  }

  // The test with which FmshFsbl_ConfigureMemory recognises its three branches.
  predicate IsTcmDestination(cpu: Cpu, address: u32) {
    || (cpu == R5_0 && (R50_ATCM <= address < R50_ATCM + BANK || R50_BTCM <= address < R50_BTCM + BANK))
    || (cpu == R5_1 && (R51_ATCM <= address < R51_ATCM + BANK || R51_BTCM <= address < R51_BTCM + BANK))
    || (cpu == R5_L && R50_ATCM <= address < R50_ATCM + 0x40000)
  }

  const QSPI_FIRST: u32 := 0xC000_0000
  const QSPI_LAST: u32 := 0xCFFF_FFFF

  // FSBL_PS_DDR_START_ADDRESS: builds for the R5 leave the first mebibyte out.
  function DdrStart(running: Cpu): u32 {
    if running == A53_0 then 0 else 0x10_0000
  }

  // CheckValidMemoryAddress, but for the PL address that stands for none.
  predicate IsValidAddress(address: u32, cpu: Cpu, ps: bool, running: Cpu) {
    || (cpu == PMU && 0xFFDC_0000 <= address < 0xFFDD_FFFF)
    || InTcm(cpu, address)
    || DdrStart(running) <= address <= 0x7FFF_FFFF
    || (ps && 0xFFFC_0000 <= address < 0xFFFF_FFFF)
  }

  /** The two functions agree on what is TCM, for every header that was validated. */
  lemma RemapAgreement(cpu: Cpu, address: u32, length: u32, ps: bool, running: Cpu)
    requires IsValidAddress(address, cpu, ps, running)
    ensures var p := GetLoadAddress(cpu, address, length);
      !p.DoesNotFit? ==> (IsTcmDestination(cpu, p.at) <==> p.Remapped?)
  {
  }

  // Validation is needed for it: a global TCM address is taken without being remapped.
  lemma RemapDisagreement(running: Cpu)
    ensures GetLoadAddress(R5_0, R50_ATCM, 0) == Direct(R50_ATCM)
    ensures IsTcmDestination(R5_0, R50_ATCM) && !IsValidAddress(R50_ATCM, R5_0, true, running)
  {
  }

  /** No two valid load addresses of a core are sent to the same place. */
  lemma RemapInjective(cpu: Cpu, a: u32, b: u32, la: u32, lb: u32, ps: bool, running: Cpu)
    requires IsValidAddress(a, cpu, ps, running) && IsValidAddress(b, cpu, ps, running)
    ensures var p, q := GetLoadAddress(cpu, a, la), GetLoadAddress(cpu, b, lb);
      !p.DoesNotFit? && !q.DoesNotFit? ==> (p.at == q.at <==> a == b)
  {
  }

  predicate Overlaps(a: u32, la: nat, b: u32, lb: nat) {
    la > 0 && lb > 0 && a < b + lb && b < a + la
  }

  /** Images for the two split cores cannot overlap, although only the length is checked. */
  lemma SplitCoresDisjoint(a: u32, la: u32, b: u32, lb: u32)
    requires GetLoadAddress(R5_0, a, la).Remapped? && GetLoadAddress(R5_1, b, lb).Remapped?
    ensures !Overlaps(GetLoadAddress(R5_0, a, la).at, la, GetLoadAddress(R5_1, b, lb).at, lb)
  {
  }

  // Where the address lies in its bank.
  function OffsetInBank(address: u32): nat
    requires InBank(address)
  {
    if address < BANK then address else address - BTCM
  }

  // Every byte of the image is in the TCM of its core.
  predicate StaysInTcm(cpu: Cpu, at: u32, length: u32) {
    forall x: u32 :: at <= x < at + length ==> IsTcmDestination(cpu, x)
  }

  /** The length alone is checked: an accepted image stays in the TCM of its core exactly if it also ends
      inside the bank it starts in, or in lock step inside the combined banks. */
  lemma StaysInTcmIff(cpu: Cpu, address: u32, length: u32)
    requires GetLoadAddress(cpu, address, length).Remapped? && length > 0
    ensures StaysInTcm(cpu, GetLoadAddress(cpu, address, length).at, length) <==>
      if cpu == R5_L then address + length <= 0x40000 else OffsetInBank(address) + length <= BANK
  {
    var at := GetLoadAddress(cpu, address, length).at;
    assert at <= at + length - 1 < 0x1_0000_0000;
    if StaysInTcm(cpu, at, length) {
      assert IsTcmDestination(cpu, at + length - 1);
    }
  }

  // The largest overrun of a bank, and of the combined banks.
  lemma ImageLeavesItsBank()
    ensures GetLoadAddress(R5_0, BANK - 1, BANK) == Remapped(R50_ATCM + BANK - 1)
    ensures !StaysInTcm(R5_0, R50_ATCM + BANK - 1, BANK)
    ensures GetLoadAddress(R5_L, 0x3FFFF, 0x40000) == Remapped(R50_ATCM + 0x3FFFF)
    ensures !StaysInTcm(R5_L, R50_ATCM + 0x3FFFF, 0x40000)
  {
    StaysInTcmIff(R5_0, BANK - 1, BANK);
    StaysInTcmIff(R5_L, 0x3FFFF, 0x40000);
  }

  /** ECC initialisation. */

  datatype Op = Fill(at: u32, length: nat) | Copy(image: Image)

  // The banks that FmshFsbl_TcmEccInit fills, leaving the vectors of a running R5 alone.
  function FillsFor(cpu: Cpu, running: Cpu): seq<Op> {
    var keep := if running != A53_0 then 32 else 0;
    if cpu == A53_0 then [Fill(R50_ATCM, 0x40000)]
    else if cpu == R5_L then [Fill(R50_ATCM + keep, 0x40000 - keep)]
    else if cpu == R5_0 then [Fill(R50_ATCM + keep, BANK - keep), Fill(R50_BTCM, BANK)]
    else if cpu == R5_1 then [Fill(R51_ATCM, BANK), Fill(R51_BTCM, BANK)]
    else [Fill(0, 0), Fill(0, 0)]
  }

  // What it reaches. For the A53 and for the pair that is all four banks: the pair's TCM is combined then, and
  // the 256 KB from the first bank on hold the banks of both cores.
  function ReachedBy(cpu: Cpu, running: Cpu): seq<Op> {
    FillsFor(cpu, running)
    + if cpu == A53_0 || cpu == R5_L then [Fill(R51_ATCM, BANK), Fill(R51_BTCM, BANK)] else []
  }

  // The status it leaves: assigned, not added to what was there.
  function EccStatus(cpu: Cpu): bv32 {
    if cpu == A53_0 || cpu == R5_L then 3
    else if cpu == R5_0 then 1
    else if cpu == R5_1 then 2
    else 0
  }

  predicate NeedsInit(ecc: bv32, cpu: Cpu) {
    if cpu == R5_0 then ecc & 1 == 0
    else if cpu == R5_1 then ecc & 2 == 0
    else ecc & 3 != 3
  }

  datatype Banks = Banks(ecc: bv32, ops: seq<Op>)

  // FmshFsbl_TcmEccInit, on values.
  function Initialised(b: Banks, cpu: Cpu, running: Cpu): Banks {
    Banks(EccStatus(cpu), b.ops + FillsFor(cpu, running))
  }

  function Configured(b: Banks, cpu: Cpu, at: u32, running: Cpu): Banks {
    if IsTcmDestination(cpu, at) && NeedsInit(b.ecc, cpu) then Initialised(b, cpu, running) else b
  }

  // FmshFsbl_ConfigureMemory powers up the memory of another core than the running one.
  function RpuConfigured(r: Rpu, cpu: Cpu, at: u32, running: Cpu): Rpu {
    if IsTcmDestination(cpu, at) && cpu != running then RpuPowered(r, cpu) else r
  }

  // The banks when the partitions are about to be loaded: BootInstance starts zeroed, and
  // FmshFsbl_TcmInit runs unless only the master was reset.
  function AtBoot(running: Cpu, systemReset: bool): Banks {
    if systemReset then Initialised(Banks(0, []), running, running) else Banks(0, [])
  }

  // The R5 pair then: the A53 powers it up to fill the banks, and puts it back in reset.
  function RpuAtBoot(r: Rpu, running: Cpu, systemReset: bool): Rpu {
    if systemReset && running == A53_0 then BothHeld(RpuPowered(r, R5_L)) else r
  }

  lemma HeldAtBoot(r: Rpu, second: bool)
    ensures var b := RpuAtBoot(r, A53_0, true);
      HeldBit(b, second) != 0 && HaltBit(b, second) == 0 && PairMode(b) == 0x50
  {
  }

  class TcmBanks {
    const running: Cpu
    const rpu: RpuControl
    var tcmEccInitStatus: bv32
    var ops: seq<Op>   // what was written, in order

    function View(): Banks
      reads this
    {
      Banks(tcmEccInitStatus, ops)
    }

    // With FmshFsbl_TcmInit.
    constructor (running: Cpu, systemReset: bool, rpu: RpuControl)
      modifies rpu
      ensures this.running == running && this.rpu == rpu
      ensures View() == AtBoot(running, systemReset)
      ensures rpu.r == RpuAtBoot(old(rpu.r), running, systemReset)
    {
      this.running := running;
      this.rpu := rpu;
      tcmEccInitStatus := 0;
      ops := [];
      new;
      if systemReset {
        if running == A53_0 {
          rpu.PowerUpMemory(R5_L);
        }
        TcmEccInit(running);
        if running == A53_0 {
          rpu.HoldBoth();
        }
      }
    }

    // FmshFsbl_TcmEccInit.
    method TcmEccInit(cpu: Cpu)
      modifies this
      ensures View() == Initialised(old(View()), cpu, running)
    {
      var aTcm, bTcm, length, status, reduce := 0, 0, 0, 0, false;
      if cpu == A53_0 {
        EccInit(R50_ATCM, BANK * 4);
        status := 3;
      } else if cpu == R5_L {
        if running != A53_0 {
          aTcm, length := R50_ATCM + 32, BANK * 4 - 32;
        } else {
          aTcm, length := R50_ATCM, BANK * 4;
        }
        EccInit(aTcm, length);
        status := 3;
      } else {
        if cpu == R5_0 {
          aTcm, bTcm, length, status := R50_ATCM, R50_BTCM, BANK, 1;
          if running != A53_0 {
            aTcm, reduce := R50_ATCM + 32, true;
          }
        } else if cpu == R5_1 {
          aTcm, bTcm, length, status := R51_ATCM, R51_BTCM, BANK, 2;
        }
        EccInit(aTcm, if reduce then length - 32 else length);
        EccInit(bTcm, length);
      }
      tcmEccInitStatus := status;
    }

    // FmshFsbl_EccInit.
    method EccInit(at: u32, length: nat)
      modifies this`ops
      ensures ops == old(ops) + [Fill(at, length)]
    {
      ops := ops + [Fill(at, length)];
    }

    // FmshFsbl_ConfigureMemory.
    method ConfigureMemory(cpu: Cpu, address: u32)
      modifies this, rpu
      ensures View() == Configured(old(View()), cpu, address, running)
      ensures rpu.r == RpuConfigured(old(rpu.r), cpu, address, running)
    {
      if cpu == R5_0 && (R50_ATCM <= address < R50_ATCM + BANK || R50_BTCM <= address < R50_BTCM + BANK) {
        if running != cpu {
          rpu.PowerUpMemory(cpu);
        }
        if tcmEccInitStatus & 1 == 0 {
          TcmEccInit(cpu);
        }
      } else if cpu == R5_1 && (R51_ATCM <= address < R51_ATCM + BANK || R51_BTCM <= address < R51_BTCM + BANK) {
        if running != cpu {
          rpu.PowerUpMemory(cpu);
        }
        if tcmEccInitStatus & 2 == 0 {
          TcmEccInit(cpu);
        }
      } else if cpu == R5_L && R50_ATCM <= address < R50_ATCM + BANK * 4 {
        if running != cpu {
          rpu.PowerUpMemory(cpu);
        }
        if tcmEccInitStatus & 3 != 3 {
          TcmEccInit(cpu);
        }
      }
    }

    // DeviceCopy of a partition.
    method DeviceCopy(image: Image)
      modifies this`ops
      ensures View() == Banks(old(tcmEccInitStatus), old(ops) + [Copy(image)])
    {
      ops := ops + [Copy(image)];
    }
  }

  lemma PlacedOnSplitCore(cpu: Cpu, address: u32, length: u32)
    requires GetLoadAddress(cpu, address, length).Remapped? && cpu != R5_L
    ensures Image(cpu, GetLoadAddress(cpu, address, length).at, length).OfSplitCore()
  {
  }

  /** Whole runs: a sequence of images, each configured and then copied. */

  // A copied image, at its global address.
  datatype Image = Image(cpu: Cpu, at: u32, length: u32)
  {
    predicate InBanks() {
      IsTcmDestination(cpu, at)
    }

    // What FmshFsbl_GetLoadAddress lets through for a split core.
    predicate OfSplitCore() {
      InBanks() && (cpu == R5_0 || cpu == R5_1) && length <= BANK
    }
  }

  function Loaded(b: Banks, image: Image, running: Cpu): Banks {
    var c := Configured(b, image.cpu, image.at, running);
    c.(ops := c.ops + [Copy(image)])
  }

  // The banks before the j-th image.
  function Before(b: Banks, images: seq<Image>, running: Cpu, j: nat): Banks
    requires j <= |images|
  {
    if j == 0 then b else Loaded(Before(b, images, running, j - 1), images[j - 1], running)
  }

  // Loading image j initialises the banks of its core.
  predicate Inits(b: Banks, images: seq<Image>, running: Cpu, j: nat)
    requires j < |images|
  {
    images[j].InBanks() && NeedsInit(Before(b, images, running, j).ecc, images[j].cpu)
  }

  predicate FilledBy(image: Image, cpu: Cpu, running: Cpu) {
    exists f :: f in ReachedBy(cpu, running) && Overlaps(f.at, f.length, image.at, image.length)
  }

  // Image i is overwritten by an initialisation that a later image causes.
  predicate Wiped(b: Banks, images: seq<Image>, running: Cpu, i: nat) {
    exists j :: i < j < |images| && Inits(b, images, running, j) && FilledBy(images[i], images[j].cpu, running)
  }

  // The core of the last TCM image among the first j.
  function LastCore(images: seq<Image>, j: nat): Cpu
    requires j <= |images|
  {
    if j == 0 then CPU_NONE else if images[j - 1].InBanks() then images[j - 1].cpu else LastCore(images, j - 1)
  }

  predicate LockStepAmong(images: seq<Image>, j: nat)
    requires j <= |images|
  {
    exists k :: 0 <= k < j && images[k].InBanks() && images[k].cpu == R5_L
  }

  // Some byte of the image is outside the vectors that a running R5 keeps.
  predicate Exposed(image: Image, running: Cpu) {
    image.length > 0 && (running != A53_0 && image.cpu == R5_0 ==> R50_ATCM + 32 < image.at + image.length)
  }

  // The ECC status remembers one split core only, until the lock-step initialisation.
  lemma {:induction false} EccRemembersLastCore(b: Banks, images: seq<Image>, running: Cpu, j: nat)
    requires b.ecc == 0 || b.ecc == 1
    requires j <= |images|
    ensures Before(b, images, running, j).ecc ==
      if LockStepAmong(images, j) then 3
      else if LastCore(images, j) == CPU_NONE then b.ecc
      else EccStatus(LastCore(images, j))
    ensures LastCore(images, j) == CPU_NONE || LastCore(images, j) == R5_0 || LastCore(images, j) == R5_1
         || LockStepAmong(images, j)
  {
    if j > 0 {
      EccRemembersLastCore(b, images, running, j - 1);
      if images[j - 1].InBanks() && images[j - 1].cpu == R5_L {
        assert LockStepAmong(images, j);
      }
    }
  }

  lemma {:induction false} LastCoreAfter(images: seq<Image>, i: nat, j: nat)
    requires i < j <= |images| && images[i].InBanks()
    ensures LastCore(images, j) != CPU_NONE
  {
    if i < j - 1 {
      LastCoreAfter(images, i, j - 1);
    }
  }

  lemma {:induction false} StaysInitialised(b: Banks, images: seq<Image>, running: Cpu, j: nat)
    requires b.ecc == 3 && j <= |images|
    ensures Before(b, images, running, j).ecc == 3
  {
    if j > 0 {
      StaysInitialised(b, images, running, j - 1);
    }
  }

  /** After a system reset of the A53, or of the R5s in lock step, nothing that was loaded is wiped. */
  lemma NeverWiped(images: seq<Image>, running: Cpu, i: nat)
    requires running == A53_0 || running == R5_L
    ensures !Wiped(AtBoot(running, true), images, running, i)
  {
    forall j | 0 <= j < |images|
      ensures !Inits(AtBoot(running, true), images, running, j)
    {
      StaysInitialised(AtBoot(running, true), images, running, j);
    }
  }

  lemma FillsMeet(image: Image, cpu: Cpu, running: Cpu)
    requires image.OfSplitCore()
    requires cpu == R5_0 || cpu == R5_1 || cpu == R5_L
    ensures FilledBy(image, cpu, running) <==> Exposed(image, running) && (cpu == image.cpu || cpu == R5_L)
  {
    var fills := ReachedBy(cpu, running);
    if FilledBy(image, cpu, running) {
      var f :| f in fills && Overlaps(f.at, f.length, image.at, image.length);
      assert f == fills[0] || f == fills[1] || f == fills[|fills| - 1];
    } else {
      assert fills[0] in fills && fills[1] in fills && fills[|fills| - 1] in fills;
    }
  }

  // Image j takes the banks back from the other core, or is the first lock-step image: that takes all banks.
  predicate Retakes(images: seq<Image>, i: nat, j: nat)
    requires i < j < |images|
  {
    && images[j].InBanks() && !LockStepAmong(images, j)
    && ((images[j].cpu == images[i].cpu && LastCore(images, j) != images[i].cpu)
        || images[j].cpu == R5_L)
  }

  /** On any other run an image of a split core is wiped exactly when a later image retakes its banks. */
  lemma WipedIff(b: Banks, images: seq<Image>, running: Cpu, i: nat)
    requires b.ecc == 0 || b.ecc == 1
    requires i < |images| && images[i].OfSplitCore()
    ensures Wiped(b, images, running, i) <==>
      Exposed(images[i], running) && exists j :: i < j < |images| && Retakes(images, i, j)
  {
    forall j | i < j < |images|
      ensures Inits(b, images, running, j) && FilledBy(images[i], images[j].cpu, running)
         <==> Exposed(images[i], running) && Retakes(images, i, j)
    {
      EccRemembersLastCore(b, images, running, j);
      LastCoreAfter(images, i, j);
      if images[j].InBanks() {
        FillsMeet(images[i], images[j].cpu, running);
      }
    }
  }

  // A lock-step image outlives every later image, whatever the run.
  lemma LockStepNeverWiped(b: Banks, images: seq<Image>, running: Cpu, i: nat)
    requires b.ecc == 0 || b.ecc == 1
    requires i < |images| && images[i].InBanks() && images[i].cpu == R5_L
    ensures !Wiped(b, images, running, i)
  {
    forall j | i < j < |images|
      ensures !Inits(b, images, running, j)
    {
      EccRemembersLastCore(b, images, running, j);
      assert LockStepAmong(images, j);
    }
  }

  // Three images, of which the third takes the banks of the first back from the second.
  function Alternation(): seq<Image> {
    [Image(R5_0, R50_BTCM, 4), Image(R5_1, R51_ATCM, 4), Image(R5_0, R50_ATCM, 4)]
  }

  // The shortest such run on R5_0, and on the A53 when only the master was reset: the first image is gone
  // when the third is loaded.
  lemma AlternationWipes()
    ensures Wiped(AtBoot(R5_0, true), Alternation(), R5_0, 0)
    ensures Wiped(AtBoot(A53_0, false), Alternation(), A53_0, 0)
  {
    var images := Alternation();
    assert LastCore(images, 1) == R5_0 && LastCore(images, 2) == R5_1;
    assert Retakes(images, 0, 2);
    WipedIff(AtBoot(R5_0, true), images, R5_0, 0);
    WipedIff(AtBoot(A53_0, false), images, A53_0, 0);
  }

  // An image of the second core is gone when the first lock-step image is loaded.
  lemma LockStepWipes()
    ensures Wiped(AtBoot(A53_0, false), [Image(R5_1, R51_ATCM, 4), Image(R5_L, R50_ATCM, 4)], A53_0, 0)
  {
    var images := [Image(R5_1, R51_ATCM, 4), Image(R5_L, R50_ATCM, 4)];
    assert !LockStepAmong(images, 1);
    assert Retakes(images, 0, 1);
    WipedIff(AtBoot(A53_0, false), images, A53_0, 0);
  }
}
