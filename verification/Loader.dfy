// fmsh_partition_load.c and the header checks it relies on: what becomes of one partition, the
// table of handoff entries, and what the table holds after any run of loads.
module Loader {
  import opened Bytes
  import opened Power
  import opened Tcm
  import opened Header

  const SUCCESS: u32 := 0
  const FAILURE: u32 := 1
  const XIP_AUTH_ENC_PRESENT: u32 := 0x28
  const XIP_EXECUTION_ADDRESS: u32 := 0x29
  const MISMATCH_PARTITION_LENGTH: u32 := 0x2A
  const INVALID_EXECUTION_ADDRESS: u32 := 0x2C
  const PARTITION_CHECKSUM: u32 := 0x2E
  const LOAD_ADDRESS: u32 := 0x35
  const PARTITION_SKIP_LOAD: u32 := 0x55

  const DUMMY_PL_ADDR: u32 := 0xFFFF_FFFF
  const PL_TEMP_DDRADDR: u32 := 0x10_0000

  datatype Device = PS | PL | PMU_RAM | Other

  function DeviceOf(attributes: bv32): Device {
    var d := attributes & 0x0070;
    if d == 0x10 then PS else if d == 0x20 then PL else if d == 0x30 then PMU_RAM else Other
  }

  predicate Signed(h: PartitionHeader) { h.Attributes() & 0x8000 != 0 }
  predicate Encrypted(h: PartitionHeader) { h.Attributes() & 0x0080 != 0 }
  predicate Hashed(h: PartitionHeader) { h.Attributes() & 0x7000 != 0 }
  predicate OwnedByFsbl(h: PartitionHeader) { h.Attributes() & 0x3_0000 == 0 }
  predicate Xip(h: PartitionHeader) { h.UnencryptedLength() == 0 }

  function Dest(h: PartitionHeader): Device { DeviceOf(h.Attributes()) }

  // A driver or crypto step reports anything but the code for a partition that is not ours.
  type Outcome = s: u32 | s != 0x55

  // What the hardware and the crypto steps answer while one partition is loaded.
  datatype Drivers = Drivers(copy: Outcome, authenticate: Outcome, hash: Outcome, decrypt: Outcome,
                             devcInit: Outcome, plPower: Outcome, download: Outcome)

  // secure: FSBL_SECURE is compiled in; encryptionOnly: the eFuse bit that forbids plain partitions.
  datatype Config = Config(running: Cpu, secure: bool, encryptionOnly: bool)

  // The processors that FmshFsbl_ProcessorInit tells apart.
  predicate RunsLoader(cpu: Cpu) { cpu == A53_0 || cpu == R5_0 || cpu == R5_L }

  /** Header validation. */

  // Plain, signed only, encrypted only, or both: how the three lengths must relate.
  predicate LengthsMatch(h: PartitionHeader) {
    if !Signed(h) && !Encrypted(h) then true
    else if !Encrypted(h) then
      h.UnencryptedLength() == h.EncryptedLength() && h.EncryptedLength() < h.TotalLength()
    else if !Signed(h) then
      h.UnencryptedLength() < h.EncryptedLength() && h.EncryptedLength() == h.TotalLength()
    else
      h.UnencryptedLength() < h.EncryptedLength() && h.EncryptedLength() < h.TotalLength()
  }

  function ValidatePartitionHeader(h: PartitionHeader, c: Config): u32 {
    if c.encryptionOnly && !Encrypted(h) then FAILURE
    else if Xip(h) && (Signed(h) || Encrypted(h)) then XIP_AUTH_ENC_PRESENT
    else if Xip(h) && !(QSPI_FIRST <= h.ExecutionAddress() <= QSPI_LAST) then XIP_EXECUTION_ADDRESS
    else if !LengthsMatch(h) then MISMATCH_PARTITION_LENGTH
    else if Dest(h) == PL && h.LoadAddress() == DUMMY_PL_ADDR then SUCCESS
    else if IsValidAddress(h.LoadAddress(), h.ResolvedCpu(c.running), Dest(h) == PS, c.running) then SUCCESS
    else INVALID_EXECUTION_ADDRESS
  }

  function HeaderStatus(h: PartitionHeader, c: Config): u32 {
    if !Checksummed(h.words) then FAILURE
    else if !OwnedByFsbl(h) then PARTITION_SKIP_LOAD
    else ValidatePartitionHeader(h, c)
  }

  // The load address is one that a partition for the CPU may have: PMU RAM, the core's TCM, DDR (from one
  // mebibyte on for a loader on an R5), or for the PS the on-chip memory.
  predicate MayLoadAt(address: u32, cpu: Cpu, device: bv32, running: Cpu) {
    || (cpu == 0x800 && 0xFFDC_0000 <= address < 0xFFDD_FFFF)
    || ((cpu == 0x500 || cpu == 0x600) && (address < 0x1_0000 || 0x2_0000 <= address < 0x3_0000))
    || (cpu == 0x700 && address < 0x4_0000)
    || (if running == 0x100 then 0 else 0x10_0000) <= address < 0x8000_0000
    || (device == 0x10 && 0xFFFC_0000 <= address < 0xFFFF_FFFF)
  }

  lemma MayLoadIff(h: PartitionHeader, c: Config)
    ensures MayLoadAt(h.LoadAddress(), h.ResolvedCpu(c.running), h.Attributes() & 0x70, c.running)
       <==> IsValidAddress(h.LoadAddress(), h.ResolvedCpu(c.running), Dest(h) == PS, c.running)
  {
    hide PartitionHeader.Attributes, PartitionHeader.ResolvedCpu;
  }

  /** What an accepted header promises: lengths grow exactly where encryption and a certificate add to them,
      and an image that executes in place is plain and lies in the linear flash. */
  lemma AcceptedHeader(h: PartitionHeader, c: Config)
    ensures var a, plain, total := h.Attributes(), h.UnencryptedLength(), h.TotalLength();
      var signed, encrypted := a & 0x8000 != 0, a & 0x80 != 0;
      HeaderStatus(h, c) == 0 <==>
      && Checksummed(h.words) && a & 0x3_0000 == 0
      && (c.encryptionOnly ==> encrypted)
      && (plain == 0 ==> !signed && !encrypted && 0xC000_0000 <= h.ExecutionAddress() <= 0xCFFF_FFFF)
      && (signed || encrypted ==>
            && plain <= h.EncryptedLength() <= total
            && (plain < h.EncryptedLength() <==> encrypted)
            && (h.EncryptedLength() < total <==> signed))
      && ((a & 0x70 == 0x20 && h.LoadAddress() == 0xFFFF_FFFF)
          || MayLoadAt(h.LoadAddress(), h.ResolvedCpu(c.running), a & 0x70, c.running))
  {
    hide PartitionHeader.Attributes, PartitionHeader.ResolvedCpu, MayLoadAt, IsValidAddress, Checksummed;
    MayLoadIff(h, c);
  }

  /** Copy and validation. */

  predicate InLinearFlash(address: u32) { QSPI_FIRST < address < QSPI_LAST }

  function Place(h: PartitionHeader, c: Config): Placement {
    GetLoadAddress(h.ResolvedCpu(c.running), h.LoadAddress(), Times4(h.TotalLength()))
  }

  // Where the partition is copied to, if it is.
  function Destination(h: PartitionHeader, c: Config): Placement {
    if Dest(h) == PL then Direct(if h.LoadAddress() == DUMMY_PL_ADDR then PL_TEMP_DDRADDR else h.LoadAddress())
    else if Dest(h) == PS then Place(h, c)
    else Direct(h.LoadAddress())
  }

  predicate Copied(h: PartitionHeader, c: Config) {
    && !Xip(h) && !(Dest(h) == PS && InLinearFlash(h.LoadAddress()))
    && !Destination(h, c).DoesNotFit?
  }

  function ImageOf(h: PartitionHeader, c: Config): Image
    requires Copied(h, c)
  {
    Image(h.ResolvedCpu(c.running), Destination(h, c).at, Times4(h.TotalLength()))
  }

  function CopyStatus(h: PartitionHeader, c: Config, d: Drivers): u32 {
    if Copied(h, c) then d.copy
    else if !Xip(h) && Destination(h, c).DoesNotFit? && !InLinearFlash(h.LoadAddress()) then LOAD_ADDRESS
    else SUCCESS
  }

  function ValidationStatus(h: PartitionHeader, c: Config, d: Drivers): u32 {
    if c.secure && Signed(h) && d.authenticate != SUCCESS then d.authenticate
    else if Dest(h) == PL then
      if d.devcInit == FAILURE || d.plPower == FAILURE then FAILURE
      else if Hashed(h) && d.hash != SUCCESS then FAILURE
      else d.download
    else if Dest(h) == PS || Dest(h) == PMU_RAM then
      if Hashed(h) && Place(h, c).DoesNotFit? then LOAD_ADDRESS
      else if Hashed(h) && d.hash != SUCCESS then PARTITION_CHECKSUM
      else if c.secure && Encrypted(h) then d.decrypt
      else SUCCESS
    else SUCCESS
  }

  function LoadStatus(h: PartitionHeader, c: Config, d: Drivers): u32 {
    if HeaderStatus(h, c) != SUCCESS then HeaderStatus(h, c)
    else if CopyStatus(h, c, d) != SUCCESS then CopyStatus(h, c, d)
    else ValidationStatus(h, c, d)
  }

  // The image fits where its header sends it, if it is sent to the TCM of an R5.
  predicate FitsTcm(h: PartitionHeader, c: Config) {
    var cpu, address, length := h.ResolvedCpu(c.running), h.LoadAddress(), Times4(h.TotalLength());
    if (cpu == R5_0 || cpu == R5_1) && (address < 0x1_0000 || 0x2_0000 <= address < 0x3_0000) then length <= 0x1_0000
    else cpu == R5_L && address < 0x4_0000 ==> length <= 0x4_0000
  }

  // Executes in place, or lies in the linear flash already.
  predicate StaysInFlash(h: PartitionHeader) {
    h.UnencryptedLength() == 0
    || (h.Attributes() & 0x70 == 0x10 && 0xC000_0000 < h.LoadAddress() < 0xCFFF_FFFF)
  }

  // Every step behind the copy that the header calls for was answered with success. The first two steps of a
  // bitstream fail with one status only.
  predicate StepsSucceed(h: PartitionHeader, c: Config, d: Drivers) {
    var a := h.Attributes();
    var device, hashed, encrypted := a & 0x70, a & 0x7000 != 0, a & 0x80 != 0;
    && (c.secure && a & 0x8000 != 0 ==> d.authenticate == 0)
    && (device == 0x20 ==> d.devcInit != 1 && d.plPower != 1 && (hashed ==> d.hash == 0) && d.download == 0)
    && (device == 0x10 || device == 0x30 ==>
          (hashed ==> d.hash == 0) && (c.secure && encrypted ==> d.decrypt == 0))
  }

  predicate ForPs(h: PartitionHeader) { h.Attributes() & 0x70 == 0x10 }
  predicate ForPmu(h: PartitionHeader) { h.Attributes() & 0x70 == 0x30 }
  predicate HasHash(h: PartitionHeader) { h.Attributes() & 0x7000 != 0 }

  lemma FitsIff(h: PartitionHeader, c: Config)
    ensures Place(h, c).DoesNotFit? <==> !FitsTcm(h, c)
  {
    hide PartitionHeader.ResolvedCpu, Times4;
  }

  lemma CopySucceedsIff(h: PartitionHeader, c: Config, d: Drivers)
    ensures CopyStatus(h, c, d) == 0 <==> StaysInFlash(h) || (d.copy == 0 && (ForPs(h) ==> FitsTcm(h, c)))
  {
    hide FitsTcm, Place, PartitionHeader.Attributes;
    FitsIff(h, c);
  }

  lemma ValidationSucceedsIff(h: PartitionHeader, c: Config, d: Drivers)
    ensures ValidationStatus(h, c, d) == 0 <==>
      StepsSucceed(h, c, d) && ((ForPs(h) || ForPmu(h)) && HasHash(h) ==> FitsTcm(h, c))
  {
    hide FitsTcm, Place, PartitionHeader.Attributes;
    FitsIff(h, c);
  }

  /** An image is copied unless it stays in flash or does not fit, all of its words, to the place that its header
      names: a bitstream without an address to the temporary one, an image for the TCM to its global address. */
  lemma CopiedTo(h: PartitionHeader, c: Config)
    ensures Copied(h, c) <==> !StaysInFlash(h) && (ForPs(h) ==> FitsTcm(h, c))
    ensures Copied(h, c) ==>
      var x, cpu, address := ImageOf(h, c), h.ResolvedCpu(c.running), h.LoadAddress();
      && x.cpu == cpu && x.length == 4 * h.TotalLength() % 0x1_0000_0000
      && x.at == if h.Attributes() & 0x70 == 0x20 && address == 0xFFFF_FFFF then 0x10_0000
                 else if ForPs(h) && InTcm(cpu, address)
                 then address + (if cpu == 0x600 then 0xFFE9_0000 else 0xFFE0_0000)
                 else address
  {
    hide PartitionHeader.Attributes, PartitionHeader.ResolvedCpu, FitsTcm, InTcm, GetLoadAddress;
    FitsIff(h, c);
    PlacedAt(h.ResolvedCpu(c.running), h.LoadAddress(), Times4(h.TotalLength()));
  }

  /** A load succeeds exactly if its header is accepted, an image that is copied or hashed fits, and every step
      that the header calls for succeeds: the copy, the authentication, the hash, the decryption, the download. */
  lemma LoadsIff(h: PartitionHeader, c: Config, d: Drivers)
    ensures LoadStatus(h, c, d) == 0 <==>
      && HeaderStatus(h, c) == 0 && StepsSucceed(h, c, d)
      && (StaysInFlash(h) || (d.copy == 0 && (ForPs(h) ==> FitsTcm(h, c))))
      && ((ForPs(h) || ForPmu(h)) && HasHash(h) ==> FitsTcm(h, c))
  {
    hide HeaderStatus, CopyStatus, ValidationStatus, StepsSucceed, StaysInFlash, FitsTcm, ForPs, ForPmu, HasHash;
    CopySucceedsIff(h, c, d);
    ValidationSucceedsIff(h, c, d);
  }

  /** It is skipped exactly if the header is checksummed and someone else owns the partition. */
  lemma SkippedIff(h: PartitionHeader, c: Config, d: Drivers)
    ensures LoadStatus(h, c, d) == 0x55 <==> Checksummed(h.words) && h.Attributes() & 0x3_0000 != 0
  {
  }

  // The partition gets as far as one of the two places that enter it in the handoff table.
  predicate Registers(h: PartitionHeader, c: Config, d: Drivers) {
    && HeaderStatus(h, c) == SUCCESS
    && (Xip(h) || (CopyStatus(h, c, d) == SUCCESS && Dest(h) == PS && ValidationStatus(h, c, d) == SUCCESS))
  }

  function BanksAfter(b: Banks, h: PartitionHeader, c: Config): Banks {
    if HeaderStatus(h, c) == SUCCESS && Copied(h, c) then Loaded(b, ImageOf(h, c), c.running) else b
  }

  // The R5 pair after the load: the copy powers up the memory it needs.
  function RpuAfter(r: Rpu, h: PartitionHeader, c: Config): Rpu {
    if HeaderStatus(h, c) == SUCCESS && Copied(h, c)
    then RpuConfigured(r, ImageOf(h, c).cpu, ImageOf(h, c).at, c.running) else r
  }

  /** A load that succeeds is entered exactly if it executes in place or is meant for the PS. */
  lemma RegistersIff(h: PartitionHeader, c: Config, d: Drivers)
    requires LoadStatus(h, c, d) == SUCCESS || LoadStatus(h, c, d) == PARTITION_SKIP_LOAD
    ensures Registers(h, c, d) <==> OwnedByFsbl(h) && (Xip(h) || Dest(h) == PS)
    ensures LoadStatus(h, c, d) == PARTITION_SKIP_LOAD <==> !OwnedByFsbl(h)
  {
  }

  /** Where the steps after the copy look for the image. */

  // Authentication: the header's address, but for the PL address that stands for none.
  function AuthenticateAddress(h: PartitionHeader): u32 {
    if Dest(h) == PL && h.LoadAddress() == DUMMY_PL_ADDR then PL_TEMP_DDRADDR else h.LoadAddress()
  }

  // The hash: remapped for PS and PMU, always the temporary address for the PL.
  function HashPlace(h: PartitionHeader, c: Config): Placement {
    if Dest(h) == PL then Direct(PL_TEMP_DDRADDR) else Place(h, c)
  }

  // EncryptionData.SrcAddr and LoadAddr: the header's address, not the one the image was copied to.
  function DecryptAddress(h: PartitionHeader): u32 { h.LoadAddress() }

  // A bitstream is hashed, decrypted and downloaded from the temporary address, wherever it was copied.
  function DownloadAddress(): u32 { PL_TEMP_DDRADDR }

  // The image was sent to the TCM of an R5.
  predicate ForTcm(h: PartitionHeader, c: Config) {
    InTcm(h.ResolvedCpu(c.running), h.LoadAddress())
  }

  /** Authentication of an accepted signed partition works on the copied image exactly if that is not for the
      TCM of an R5. */
  lemma AuthenticatesWhatWasCopied(h: PartitionHeader, c: Config)
    requires c.secure && Signed(h) && HeaderStatus(h, c) == SUCCESS && Copied(h, c)
    ensures AuthenticateAddress(h) == ImageOf(h, c).at <==> !(Dest(h) == PS && ForTcm(h, c))
  {
  }

  /** The hash is taken of the copied image, but for a partition of the PMU device whose address is remapped:
      the copy does not remap it. */
  lemma HashesWhatWasCopied(h: PartitionHeader, c: Config)
    requires HeaderStatus(h, c) == SUCCESS && Copied(h, c) && (Dest(h) == PS || Dest(h) == PMU_RAM)
    ensures !HashPlace(h, c).DoesNotFit? && HashPlace(h, c).at == ImageOf(h, c).at
       <==> !(Dest(h) == PMU_RAM && ForTcm(h, c))
  {
  }

  /** In-place decryption of an accepted encrypted partition works on the copied image exactly if the image
      is not for the TCM of an R5. */
  lemma DecryptsWhatWasCopied(h: PartitionHeader, c: Config)
    requires c.secure && Encrypted(h)
    requires HeaderStatus(h, c) == SUCCESS && Copied(h, c) && Dest(h) == PS
    ensures DecryptAddress(h) == ImageOf(h, c).at <==> !ForTcm(h, c)
  {
  }

  // An encrypted image for the TCM of R5-0: accepted, copied to the global address, decrypted at zero.
  lemma TcmImageIsNotDecrypted()
    ensures var h, c := Sealed(2, 1, 2, 0, 0x590), Config(A53_0, true, false);
      && Encrypted(h) && HeaderStatus(h, c) == SUCCESS && Copied(h, c) && Dest(h) == PS
      && DecryptAddress(h) == 0 && ImageOf(h, c).at == R50_ATCM
  {
    hide Checksummed, Sealed, PartitionHeader.Attributes;
  }

  // A signed image for the same place: authenticated at zero.
  lemma TcmImageIsNotAuthenticated()
    ensures var h, c := Sealed(1, 1, 2, 0, 0x8510), Config(A53_0, true, false);
      && Signed(h) && HeaderStatus(h, c) == SUCCESS && Copied(h, c) && Dest(h) == PS
      && AuthenticateAddress(h) == 0 && ImageOf(h, c).at == R50_ATCM
  {
    hide Checksummed, Sealed, PartitionHeader.Attributes;
  }

  /** An accepted bitstream is hashed and downloaded from the place of the copy exactly if its header names that place
      or none. */
  lemma DownloadsWhatWasCopied(h: PartitionHeader, c: Config)
    requires HeaderStatus(h, c) == SUCCESS && Copied(h, c) && Dest(h) == PL
    ensures HashPlace(h, c) == Direct(DownloadAddress())
    ensures DownloadAddress() == ImageOf(h, c).at
       <==> h.LoadAddress() == 0xFFFF_FFFF || h.LoadAddress() == 0x10_0000
  {
  }

  // A bitstream that names address zero: accepted, copied there, downloaded from the temporary address.
  lemma CopiedBitstreamIsNotDownloaded()
    ensures var h, c := Sealed(1, 1, 1, 0, 0x120), Config(A53_0, false, false);
      && HeaderStatus(h, c) == SUCCESS && Copied(h, c) && Dest(h) == PL
      && ImageOf(h, c).at == 0 && DownloadAddress() != 0
  {
    hide Checksummed, Sealed, PartitionHeader.Attributes;
  }

  // Only images for the PS are configured, but no other image could need it.
  lemma OnlyPsNeedsConfiguring(b: Banks, h: PartitionHeader, c: Config)
    requires HeaderStatus(h, c) == SUCCESS && Copied(h, c) && Dest(h) != PS
    ensures !IsTcmDestination(ImageOf(h, c).cpu, ImageOf(h, c).at)
    ensures Configured(b, ImageOf(h, c).cpu, ImageOf(h, c).at, c.running) == b
    ensures forall r :: RpuConfigured(r, ImageOf(h, c).cpu, ImageOf(h, c).at, c.running) == r
  {
  }

  /** The handoff table. */

  datatype HandoffEntry = HandoffEntry(cpuSettings: bv32, attributes: bv32, address: u32)
  {
    function Cpu(): Cpu { CpuOf(cpuSettings) }
    function Exec(): bv32 { ExecState(cpuSettings) }
  }

  function EntryFor(h: PartitionHeader, running: Cpu): HandoffEntry {
    HandoffEntry(h.ResolvedCpu(running) | ExecState(h.Attributes()), h.Attributes(), h.ExecutionAddress())
  }

  /** CPU and execution state are both recovered from the one word that holds them. */
  lemma SettingsDecode(h: PartitionHeader, running: Cpu)
    requires CpuOf(running) == running
    ensures EntryFor(h, running).Cpu() == h.ResolvedCpu(running)
    ensures EntryFor(h, running).Exec() == ExecState(h.Attributes())
  {
  }

  lemma NamesItself(cpu: Cpu)
    requires RunsLoader(cpu)
    ensures CpuOf(cpu) == cpu
  {
  }

  predicate Has(table: seq<HandoffEntry>, cpu: Cpu) {
    exists k :: 0 <= k < |table| && table[k].Cpu() == cpu
  }

  // The first entry for a CPU stays.
  function Enter(table: seq<HandoffEntry>, e: HandoffEntry): seq<HandoffEntry> {
    if Has(table, e.Cpu()) then table else table + [e]
  }

  // The entry has a slot in HandoffValues.
  predicate HasRoom(table: seq<HandoffEntry>, e: HandoffEntry) {
    |Enter(table, e)| <= 10
  }

  predicate NamedCpu(cpu: Cpu) {
    cpu in {A53_0, A53_1, A53_2, A53_3, R5_0, R5_1, R5_L, PMU}
  }

  predicate Distinct(table: seq<HandoffEntry>) {
    forall i, j :: 0 <= i < j < |table| ==> table[i].Cpu() != table[j].Cpu()
  }

  predicate AllNamed(table: seq<HandoffEntry>) {
    forall i :: 0 <= i < |table| ==> NamedCpu(table[i].Cpu())
  }

  function Cpus(table: seq<HandoffEntry>): set<Cpu> {
    set i | 0 <= i < |table| :: table[i].Cpu()
  }

  lemma {:induction false} CpusCount(table: seq<HandoffEntry>)
    requires Distinct(table)
    ensures |Cpus(table)| == |table|
  {
    if table != [] {
      var n := |table| - 1;
      CpusCount(table[..n]);
      assert Cpus(table) == Cpus(table[..n]) + {table[n].Cpu()};
      assert table[n].Cpu() !in Cpus(table[..n]);
    }
  }

  lemma {:induction false} SubsetCount<T>(a: set<T>, b: set<T>)
    requires a <= b
    ensures |a| <= |b|
  {
    if a != {} {
      var x :| x in a;
      SubsetCount(a - {x}, b - {x});
    }
  }

  /** Eight CPU names and no CPU twice: the table's ten slots are enough. */
  lemma TableBound(table: seq<HandoffEntry>)
    requires Distinct(table) && AllNamed(table)
    ensures |table| <= 8
  {
    CpusCount(table);
    SubsetCount(Cpus(table), {A53_0, A53_1, A53_2, A53_3, R5_0, R5_1, R5_L, PMU});
  }

  lemma EnterKeepsDistinct(table: seq<HandoffEntry>, e: HandoffEntry)
    requires Distinct(table)
    ensures Distinct(Enter(table, e))
    ensures Enter(Enter(table, e), e) == Enter(table, e)
  {
    if !Has(table, e.Cpu()) {
      var t := table + [e];
      assert t[|table|] == e;
    }
  }

  // The table after a run of registrations.
  function Entered(es: seq<HandoffEntry>): seq<HandoffEntry> {
    if es == [] then [] else Enter(Entered(es[..|es| - 1]), es[|es| - 1])
  }

  predicate IsFirst(es: seq<HandoffEntry>, i: nat)
    requires i < |es|
  {
    forall j :: 0 <= j < i ==> es[j].Cpu() != es[i].Cpu()
  }

  // The positions of the first registration of each CPU, in order.
  function Firsts(es: seq<HandoffEntry>): (r: seq<nat>)
    ensures forall k :: 0 <= k < |r| ==> r[k] < |es|
  {
    if es == [] then [] else
      var front := Firsts(es[..|es| - 1]);
      if IsFirst(es, |es| - 1) then front + [|es| - 1] else front
  }

  lemma {:induction false} FirstsAreFirst(es: seq<HandoffEntry>)
    ensures forall k :: 0 <= k < |Firsts(es)| ==> IsFirst(es, Firsts(es)[k])
    ensures forall i :: 0 <= i < |es| && IsFirst(es, i) ==> i in Firsts(es)
    ensures forall a, b :: 0 <= a < b < |Firsts(es)| ==> Firsts(es)[a] < Firsts(es)[b]
  {
    if es != [] {
      var front := es[..|es| - 1];
      FirstsAreFirst(front);
      assert forall i :: 0 <= i < |front| ==> (IsFirst(front, i) <==> IsFirst(es, i));
    }
  }

  /** After any run the table lists, in order, the first registration of every CPU and nothing else. */
  lemma {:induction false} FirstPartitionWins(es: seq<HandoffEntry>)
    ensures |Entered(es)| == |Firsts(es)|
    ensures forall k :: 0 <= k < |Firsts(es)| ==> Entered(es)[k] == es[Firsts(es)[k]]
    ensures Distinct(Entered(es))
    ensures forall cpu :: Has(Entered(es), cpu) <==> Has(es, cpu)
  {
    if es != [] {
      var n := |es| - 1;
      var front, e := es[..n], es[n];
      FirstPartitionWins(front);
      EnterKeepsDistinct(Entered(front), e);
      assert Has(front, e.Cpu()) <==> !IsFirst(es, n);
      forall cpu
        ensures Has(Entered(es), cpu) <==> Has(es, cpu)
      {
        HasAppend(Entered(front), e, cpu);
        HasAppend(front, e, cpu);
        assert es == front + [e];
      }
    }
  }

  lemma HasAppend(table: seq<HandoffEntry>, e: HandoffEntry, cpu: Cpu)
    ensures Has(table + [e], cpu) <==> Has(table, cpu) || e.Cpu() == cpu
  {
    var t := table + [e];
    assert t[|table|] == e;
    assert forall k :: 0 <= k < |table| ==> t[k] == table[k];
  }

  lemma HasCpus(table: seq<HandoffEntry>, cpu: Cpu)
    ensures Has(table, cpu) <==> cpu in Cpus(table)
  {
  }

  /** The table is as long as there are different CPUs among the registrations. */
  lemma TableSize(es: seq<HandoffEntry>)
    ensures |Entered(es)| == |Cpus(es)|
  {
    FirstPartitionWins(es);
    CpusCount(Entered(es));
    forall cpu
      ensures cpu in Cpus(Entered(es)) <==> cpu in Cpus(es)
    {
      HasCpus(Entered(es), cpu);
      HasCpus(es, cpu);
    }
    assert Cpus(Entered(es)) == Cpus(es);
  }

  /** BootPs, as far as the loading of partitions changes it. */

  class BootPs {
    const config: Config
    const handoffValues: array<HandoffEntry>
    const tcm: TcmBanks
    var handoffCpuNo: nat

    function Table(): seq<HandoffEntry>
      reads this, handoffValues
      requires handoffCpuNo <= handoffValues.Length
    {
      handoffValues[..handoffCpuNo]
    }

    ghost predicate Valid()
      reads this, handoffValues
    {
      && handoffValues.Length == 10 && tcm.running == config.running && RunsLoader(config.running)
      && handoffCpuNo <= 10 && Distinct(Table())
    }

    constructor (config: Config, systemReset: bool, rpu: RpuControl)
      requires RunsLoader(config.running)
      modifies rpu
      ensures Valid() && fresh(handoffValues) && fresh(tcm) && tcm.rpu == rpu
      ensures this.config == config && Table() == [] && tcm.View() == AtBoot(config.running, systemReset)
      ensures rpu.r == RpuAtBoot(old(rpu.r), config.running, systemReset)
    {
      this.config := config;
      handoffValues := new HandoffEntry[10];
      handoffCpuNo := 0;
      tcm := new TcmBanks(config.running, systemReset, rpu);
    }

    // FmshFsbl_CheckHandoffCpu: SUCCESS if the CPU has no entry yet.
    method CheckHandoffCpu(destinationCpu: Cpu) returns (status: u32)
      requires Valid()
      ensures status == if Has(Table(), destinationCpu) then FAILURE else SUCCESS
    {
      status := SUCCESS;
      var index := 0;
      while index < handoffCpuNo
        invariant index <= handoffCpuNo
        invariant forall k :: 0 <= k < index ==> Table()[k].Cpu() != destinationCpu
      {
        var cpuId := CpuOf(handoffValues[index].cpuSettings);
        if cpuId == destinationCpu {
          assert Table()[index].Cpu() == destinationCpu;
          status := FAILURE;
          break;
        }
        index := index + 1;
      }
    }

    // The source writes the next slot without looking at the size of the array. When there is no such
    // slot the model stops, and says so in inside.
    method Register(h: PartitionHeader) returns (inside: bool)
      requires Valid()
      modifies this`handoffCpuNo, handoffValues
      ensures Valid()
      ensures inside <==> HasRoom(old(Table()), EntryFor(h, config.running))
      ensures Table() == if inside then Enter(old(Table()), EntryFor(h, config.running)) else old(Table())
    {
      hide CpuOf, ExecState, PartitionHeader.ResolvedCpu, PartitionHeader.Attributes, PartitionHeader.ExecutionAddress,
           HandoffEntry.Cpu, Has, Distinct, RunsLoader;
      NamesItself(config.running);
      ghost var e := EntryFor(h, config.running);
      SettingsDecode(h, config.running);
      EnterKeepsDistinct(Table(), e);
      inside := true;
      var cpuNo := handoffCpuNo;
      var status := CheckHandoffCpu(h.ResolvedCpu(config.running));
      if status == SUCCESS {
        if cpuNo == 10 {
          return false;
        }
        handoffValues[cpuNo] := HandoffEntry(h.ResolvedCpu(config.running) | ExecState(h.Attributes()),
                                             h.Attributes(), h.ExecutionAddress());
        handoffCpuNo := handoffCpuNo + 1;
        assert Table() == old(Table()) + [e];
      }
    }

    // FmshFsbl_PartitionHeaderValidation.
    method PartitionHeaderValidation(h: PartitionHeader) returns (status: u32)
      ensures status == HeaderStatus(h, config)
    {
      var ok := ValidateChecksum(h.words);
      if !ok {
        return FAILURE;
      }
      if h.Attributes() & 0x3_0000 != 0 {
        return PARTITION_SKIP_LOAD;
      }
      status := ValidatePartitionHeader(h, config);
    }

    // FmshFsbl_PartitionCopy: an image that executes in place is entered in the table at once.
    method PartitionCopy(h: PartitionHeader, d: Drivers) returns (status: u32, inside: bool)
      requires Valid() && HeaderStatus(h, config) == SUCCESS
      modifies this`handoffCpuNo, handoffValues, tcm, tcm.rpu
      ensures Valid()
      ensures inside <==> (Xip(h) ==> HasRoom(old(Table()), EntryFor(h, config.running)))
      ensures status == CopyStatus(h, config, d)
      ensures Table() == if Xip(h) && inside then Enter(old(Table()), EntryFor(h, config.running)) else old(Table())
      ensures tcm.View() == BanksAfter(old(tcm.View()), h, config)
      ensures tcm.rpu.r == RpuAfter(old(tcm.rpu.r), h, config)
    {
      hide Enter, HasRoom, EntryFor, Distinct, Configured, RpuConfigured, Checksummed, ValidatePartitionHeader,
           GetLoadAddress, InLinearFlash, DeviceOf, OwnedByFsbl, PartitionHeader.ResolvedCpu, PartitionHeader.Attributes,
           IsTcmDestination;
      inside := true;
      var cpu := h.ResolvedCpu(config.running);
      if h.UnencryptedLength() == 0 {
        inside := Register(h);
        return SUCCESS, inside;
      }
      var length := Times4(h.TotalLength());
      var loadAddress := h.LoadAddress();
      if Dest(h) == PL {
        if loadAddress == DUMMY_PL_ADDR {
          loadAddress := PL_TEMP_DDRADDR;
        }
        OnlyPsNeedsConfiguring(tcm.View(), h, config);
      } else if Dest(h) == PS {
        if InLinearFlash(loadAddress) {
          return SUCCESS, inside;
        }
        var placement := GetLoadAddress(cpu, loadAddress, length);
        if placement.DoesNotFit? {
          return LOAD_ADDRESS, inside;
        }
        loadAddress := placement.at;
        tcm.ConfigureMemory(cpu, loadAddress);
      } else {
        OnlyPsNeedsConfiguring(tcm.View(), h, config);
      }
      tcm.DeviceCopy(Image(cpu, loadAddress, length));
      status := d.copy;
    }

    // FmshFsbl_PartitionValidation.
    method PartitionValidation(h: PartitionHeader, d: Drivers) returns (status: u32, inside: bool)
      requires Valid()
      modifies this`handoffCpuNo, handoffValues
      ensures Valid()
      ensures status == ValidationStatus(h, config, d)
      ensures inside <==> (Dest(h) == PS && status == SUCCESS ==> HasRoom(old(Table()), EntryFor(h, config.running)))
      ensures Table() == if Dest(h) == PS && status == SUCCESS && inside
                         then Enter(old(Table()), EntryFor(h, config.running)) else old(Table())
    {
      inside := true;
      if config.secure && Signed(h) {
        if d.authenticate != SUCCESS {
          return d.authenticate, true;
        }
      }
      if Dest(h) == PL {
        if d.devcInit == FAILURE {
          return FAILURE, true;
        }
        if d.plPower == FAILURE {
          return FAILURE, true;
        }
        if Hashed(h) && d.hash != SUCCESS {
          return FAILURE, true;
        }
        return d.download, true;
      } else if Dest(h) == PS || Dest(h) == PMU_RAM {
        if Hashed(h) {
          var placement := GetLoadAddress(h.ResolvedCpu(config.running), h.LoadAddress(), Times4(h.TotalLength()));
          if placement.DoesNotFit? {
            return LOAD_ADDRESS, true;
          }
          if d.hash != SUCCESS {
            return PARTITION_CHECKSUM, true;
          }
        }
        if config.secure && Encrypted(h) {
          if d.decrypt != SUCCESS {
            return d.decrypt, true;
          }
        }
        if Dest(h) == PS {
          inside := Register(h);
        }
      }
      status := SUCCESS;
    }

    // FmshFsbl_PartitionLoad.
    method PartitionLoad(h: PartitionHeader, d: Drivers) returns (status: u32, inside: bool)
      requires Valid()
      modifies this`handoffCpuNo, handoffValues, tcm, tcm.rpu
      ensures Valid()
      ensures inside <==> (Registers(h, config, d) ==> HasRoom(old(Table()), EntryFor(h, config.running)))
      ensures inside ==> status == LoadStatus(h, config, d)
      ensures Table() == if Registers(h, config, d) && inside
                         then Enter(old(Table()), EntryFor(h, config.running)) else old(Table())
      ensures tcm.View() == BanksAfter(old(tcm.View()), h, config)
      ensures tcm.rpu.r == RpuAfter(old(tcm.rpu.r), h, config)
    {
      hide ValidationStatus, CopyStatus, HeaderStatus, Copied, Enter, EntryFor;
      EnterKeepsDistinct(Table(), EntryFor(h, config.running));
      XipCopies(h, config, d);
      inside := true;
      status := PartitionHeaderValidation(h);
      if status != SUCCESS {
        return;
      }
      status, inside := PartitionCopy(h, d);
      if status != SUCCESS || !inside {
        return;
      }
      status, inside := PartitionValidation(h, d);
    }
  }

  lemma XipCopies(h: PartitionHeader, c: Config, d: Drivers)
    ensures Xip(h) ==> CopyStatus(h, c, d) == SUCCESS
  {
  }
}
