// When a run stays inside the two arrays that the source writes without a check, the headers and the handoff
// table: how the loads end, exactly, and images for which they do not.
module Bounds {
  import opened Bytes
  import opened Power
  import opened Header
  import opened BootDevice
  import opened FlashImage
  import opened Loader
  import opened Handoff
  import opened BootMain
  import opened EndToEnd

  /** Which status of stages 1 and 2 leads where. */

  // Success goes on, the status 3 goes to the handoff with nothing loaded, and any other one locks down.
  lemma StatusDecides(run: Run, attempts: seq<nat>, p: Progress, before: Cores, after: Cores, end: End,
                      table: seq<HandoffEntry>)
    requires run.Valid() && LoadsResult(run, attempts, p) && |attempts| <= 14
    requires Ended(run, |attempts| + 1, before, after, p, end, table)
    ensures run.bootInitialize != 0 ==> p == Failed && attempts == [] && end == LockedDown && after == before
    ensures run.bootInitialize == 0 && !run.overrun && run.deviceInit == 3 ==> p == Reached && attempts == []
    ensures run.bootInitialize == 0 && !run.overrun && run.deviceInit != 3 && run.deviceInit != 0 ==>
      p == Failed && attempts == [] && end == LockedDown && after == before
    ensures run.bootInitialize == 0 && !run.overrun && run.deviceInit == 0 && attempts == [] ==>
      run.partitions == 1 && p == Reached
  {
    hide Run.TableBelow, Run.Goes;
    NoTableYet(run);
  }

  /** So an image whose table or chain cannot be read locks down, with nothing loaded and no core touched, unless
      the first copy that fails does so with the status 3: that goes to the handoff. */
  lemma UnreadableImageLocksDown(inputs: Inputs, attempts: seq<nat>, p: Progress, before: Cores, after: Cores, end: End,
                                 table: seq<HandoffEntry>)
    requires inputs.Valid() && inputs.bootInitialize == 0 && inputs.primary.init == 0 && inputs.primary.header == 0
    requires var s := inputs.primary;
      !Overruns(s.flash, s.image) && !(TableReadable(s.flash, s.image) && ChainReadable(s.flash, s.image, s.Partitions()))
    requires LoadsResult(RunOf(inputs), attempts, p) && |attempts| <= 14
    requires Ended(RunOf(inputs), |attempts| + 1, before, after, p, end, table)
    ensures attempts == []
    ensures if ReadStatus(inputs.primary.flash, inputs.primary.image) == 3 then p == Reached
            else p == Failed && end == LockedDown && after == before
  {
    hide TableReadable, ChainReadable, Overruns, Table, ReadStatus, LoadsResult, Ended;
    ReadStatusIff(inputs.primary.flash, inputs.primary.image);
    StatusDecides(RunOf(inputs), attempts, p, before, after, end, table);
  }

  /** An image whose table can be read but is not checksummed always locks down. */
  lemma UncheckedTableLocksDown(inputs: Inputs, attempts: seq<nat>, p: Progress, before: Cores, after: Cores, end: End,
                                table: seq<HandoffEntry>)
    requires inputs.Valid() && inputs.bootInitialize == 0 && inputs.primary.init == 0 && inputs.primary.header == 0
    requires var s := inputs.primary;
      && s.flash.copy(Add32(s.image, 0x98)) == 0 && s.flash.copy(TableAddress(s.flash, s.image)) == 0
      && !Checksummed(Table(s.flash, s.image))
    requires LoadsResult(RunOf(inputs), attempts, p) && |attempts| <= 14
    requires Ended(RunOf(inputs), |attempts| + 1, before, after, p, end, table)
    ensures p == Failed && attempts == [] && end == LockedDown && after == before
  {
    hide ChainReadable, ChainStatus, Checksummed, Table, TableAddress, LoadsResult, Ended;
    UnreadableImageLocksDown(inputs, attempts, p, before, after, end, table);
  }

  /** Arrays. */

  // The different CPUs that the partitions to be handed over name.
  function CpuFields(run: Run, n: nat): set<Cpu>
    requires run.Valid() && n <= 15
  {
    set k | 1 <= k < n && ForHandoff(run, k) :: CpuAt(run, k)
  }

  lemma {:induction false} RegisteredCpus(run: Run, n: nat)
    requires run.Valid() && n <= 15 && run.AllGoBelow(n)
    ensures Cpus(run.Registered(n)) == CpuFields(run, n)
  {
    hide ForHandoff, CpuAt, Registers, EntryFor, Run.Goes, HandoffEntry.Cpu;
    if n > 1 {
      RegisteredCpus(run, n - 1);
      var front, e := run.Registered(n - 1), EntryFor(run.headers[n - 1], run.config.running);
      RegistersFor(run, n - 1, CpuAt(run, n - 1));
      assert e == EntryOf(run, n - 1);
      CpusAppend(front, e);
      assert front + [] == front;
      assert CpuFields(run, n)
          == CpuFields(run, n - 1) + if ForHandoff(run, n - 1) then {CpuAt(run, n - 1)} else {};
    }
  }

  lemma CpusAppend(front: seq<HandoffEntry>, e: HandoffEntry)
    ensures Cpus(front + [e]) == Cpus(front) + {e.Cpu()}
  {
    hide HandoffEntry.Cpu;
    var t := front + [e];
    assert t[|front|] == e;
    assert forall k :: 0 <= k < |front| ==> t[k] == front[k];
    assert forall k :: 0 <= k < |t| ==> t[k] == e || (k < |front| && t[k] == front[k]);
  }

  /** The handoff table stays inside its ten slots exactly if those partitions name at most ten CPUs. */
  lemma SlotsIff(run: Run, n: nat)
    requires run.Valid() && n <= 15 && run.AllGoBelow(n)
    ensures run.InSlots(n) <==> |CpuFields(run, n)| <= 10
    ensures run.InSlots(n) ==> forall m: nat :: m <= n ==> run.InSlots(m)
  {
    hide ForHandoff, CpuAt, Registers, EntryFor, Run.Goes, Run.AllGoBelow;
    RegisteredCpus(run, n);
    TableSize(run.Registered(n));
    forall m: nat | m <= n
      ensures run.InSlots(n) ==> run.InSlots(m)
    {
      SlotsGrow(run, m, n);
    }
  }

  // So it does whenever they name only CPUs of the header format.
  lemma NamedCpusFit(run: Run, n: nat)
    requires run.Valid() && n <= 15 && run.AllGoBelow(n)
    requires forall k :: 1 <= k < n && ForHandoff(run, k) ==> NamedCpu(CpuAt(run, k))
    ensures run.InSlots(n)
  {
    hide ForHandoff, CpuAt, Run.Goes, Run.AllGoBelow;
    SlotsIff(run, n);
    SubsetCount(CpuFields(run, n), {A53_0, A53_1, A53_2, A53_3, R5_0, R5_1, R5_L, PMU});
  }

  // The table is too small for one of the partitions that come to be loaded.
  predicate TableLeft(run: Run)
    requires run.Valid()
  {
    exists m :: 1 <= m <= 14 && m <= run.Last() && run.AllGoBelow(m) && !run.InSlots(m + 1)
  }

  lemma SlotsAt(run: Run, m: nat, k: nat)
    requires run.Valid() && m < 15 && k <= 15 && run.InSlots(m)
    ensures k <= m ==> run.InSlots(k)
    ensures m < k && !run.InSlots(m + 1) ==> !run.InSlots(k)
  {
    hide Run.TableBelow;
    if k <= m { SlotsGrow(run, k, m); } else { SlotsGrow(run, m + 1, k); }
  }

  /** Handoff is reached exactly if there is nothing to load (JTAG), or there are one to fifteen partitions, all
      of them load or are skipped, and the table fits. */
  lemma ReachedIff(run: Run, attempts: seq<nat>, p: Progress)
    requires run.Valid() && LoadsResult(run, attempts, p)
    ensures p == Reached <==>
      && run.bootInitialize == SUCCESS && !run.overrun
      && (|| run.deviceInit == BOOT_STATUS_JTAG
          || (&& run.deviceInit == SUCCESS && 1 <= run.partitions
              && run.AllGoBelow(run.partitions) && run.InSlots(run.partitions)))
  {
    hide Run.Goes, Run.InSlots;
    var m := |attempts|;
    if run.Starts() && 1 <= run.partitions && run.InSlots(run.partitions) {
      SlotsAt(run, m, run.partitions);
    }
  }

  /** An array is left exactly if stage 2 stores a sixteenth header, a registration has no slot, or an image
      without partitions finds fourteen good headers in slots it did not fill. */
  lemma LeftArrayIff(run: Run, attempts: seq<nat>, p: Progress)
    requires run.Valid() && LoadsResult(run, attempts, p)
    ensures p == LeftArray <==>
      && run.bootInitialize == SUCCESS
      && (run.overrun || (run.deviceInit == SUCCESS && (TableLeft(run) || (run.partitions == 0 && run.AllGoBelow(15)))))
  {
    hide Run.Goes, Run.InSlots;
    var m := |attempts|;
    if run.Starts() && p == LeftArray && !run.InSlots(m + 1) {
      assert run.AllGoBelow(m) && 1 <= m <= 14;
    }
    if run.Starts() && p != LeftArray {
      forall k | 1 <= k <= 14 && k <= run.Last() && run.AllGoBelow(k)
        ensures run.InSlots(k + 1)
      {
        SlotsAt(run, m, k + 1);
        assert k <= m;
      }
    }
  }

  /** Images that leave an array. */

  function AllGood(): Drivers { Drivers(0, 0, 0, 0, 0, 0, 0) }

  // A run of the A53 from the given devices, on which every driver succeeds.
  function GoodInputs(primary: Source, secondary: Source): (inputs: Inputs)
    ensures inputs.Valid()
  {
    Inputs(Config(A53_0, false, false), SUCCESS, primary, secondary, seq(15, _ => AllGood()),
           Platform(false, SUCCESS, true, false), AA64)
  }

  // Eleven accepted partitions for the PS, each for another CPU number, behind the one of the loader.
  function EleventhCpu(k: nat): Cpu {
    if k == 1 then 0x100 else if k == 2 then 0x200 else if k == 3 then 0x300 else if k == 4 then 0x400
    else if k == 5 then 0x500 else if k == 6 then 0x600 else if k == 7 then 0x700 else if k == 8 then 0x800
    else if k == 9 then 0x900 else if k == 10 then 0xA00 else 0xB00
  }

  function ElevenHeader(k: nat): PartitionHeader
    requires k < 16
  {
    Sealed(1, 1, 1, 0x400 + 16 * (k + 1), 0x10 | EleventhCpu(k))
  }

  function ElevenHeaders(): (s: seq<PartitionHeader>)
    ensures |s| == 12 && Chained(s) && forall k :: 0 <= k < 12 ==> s[k] == ElevenHeader(k)
  {
    hide EleventhCpu;
    seq(12, k requires 0 <= k < 12 => ElevenHeader(k))
  }

  function ElevenCpus(): (inputs: Inputs)
    ensures inputs.Valid()
  {
    GoodInputs(DeviceWith(ElevenHeaders(), SAME_DEVICE), DeviceWith([], SAME_DEVICE))
  }

  lemma ElevenRun()
    ensures var run := RunOf(ElevenCpus());
      && run.Starts() && run.partitions == 12 && run.config == Config(A53_0, false, false)
      && (forall k :: 0 <= k < 12 ==> run.headers[k] == ElevenHeader(k))
      && (forall k :: 0 <= k < 15 ==> run.drivers[k] == AllGood())
  {
    hide ElevenHeader, Find, Stored, DeviceWith;
    HeadersAreFound(ElevenHeaders(), DeviceWith([], SAME_DEVICE), NoHeaders());
  }

  lemma EleventhFields(k: nat)
    requires 1 <= k <= 11
    ensures var a := 0x10 | EleventhCpu(k);
      && CpuOf(a) == EleventhCpu(k) && DeviceOf(a) == PS && EleventhCpu(k) != CPU_NONE
      && a & 0x8000 == 0 && a & 0x80 == 0 && a & 0x7000 == 0 && a & 0x3_0000 == 0
    ensures forall j :: 1 <= j < k ==> EleventhCpu(j) != EleventhCpu(k)
  {
  }

  lemma PlainLoads(h: PartitionHeader, c: Config, cpu: Cpu, next: u32)
    requires h == Sealed(1, 1, 1, next, 0x10 | cpu) && c == Config(A53_0, false, false) && cpu != CPU_NONE
    requires CpuOf(0x10 | cpu) == cpu && DeviceOf(0x10 | cpu) == PS
    requires (0x10 | cpu) & 0x8000 == 0 && (0x10 | cpu) & 0x80 == 0
    requires (0x10 | cpu) & 0x7000 == 0 && (0x10 | cpu) & 0x3_0000 == 0
    ensures LoadStatus(h, c, AllGood()) == SUCCESS
    ensures OwnedByFsbl(h) && Dest(h) == PS && h.ResolvedCpu(A53_0) == cpu
  {
    hide Sealed, Checksummed, CpuOf, DeviceOf, PartitionHeader.Attributes;
  }

  lemma ElevenLoad(k: nat)
    requires 1 <= k <= 11
    ensures var run := RunOf(ElevenCpus()); run.Goes(k) && ForHandoff(run, k) && CpuAt(run, k) == EleventhCpu(k)
  {
    hide RunOf, ElevenCpus, EleventhCpu, Sealed, CpuOf, DeviceOf, LoadStatus, OwnedByFsbl, Dest,
         PartitionHeader.ResolvedCpu;
    ElevenRun();
    EleventhFields(k);
    PlainLoads(ElevenHeader(k), RunOf(ElevenCpus()).config, EleventhCpu(k), 0x400 + 16 * (k + 1));
  }

  /** Without that condition the eleventh registration has no slot. */
  lemma EleventhLeavesTable()
    ensures var run := RunOf(ElevenCpus()); run.AllGoBelow(12) && run.InSlots(11) && !run.InSlots(12)
  {
    hide RunOf, ElevenCpus, EleventhCpu, Run.Goes, ForHandoff, CpuAt, Run.InSlots;
    var run := RunOf(ElevenCpus());
    forall k | 1 <= k <= 11
      ensures run.Goes(k) && ForHandoff(run, k) && CpuAt(run, k) == EleventhCpu(k)
    {
      ElevenLoad(k);
    }
    FieldsGrow(run, 11);
    FieldsGrow(run, 12);
    SlotsIff(run, 11);
    SlotsIff(run, 12);
  }

  // So the run that loads them, whatever it attempts first, ends there.
  lemma ElevenRunLeavesTable(attempts: seq<nat>, p: Progress)
    requires LoadsResult(RunOf(ElevenCpus()), attempts, p)
    ensures p == LeftArray
  {
    hide RunOf, ElevenCpus, LoadsResult, Run.Goes, Run.InSlots, Run.AllGoBelow;
    var run := RunOf(ElevenCpus());
    ElevenRun();
    EleventhLeavesTable();
    assert run.AllGoBelow(11) by { FewerGo(run, 11, 12); }
    assert TableLeft(run);
    LeftArrayIff(run, attempts, p);
  }

  lemma FewerGo(run: Run, a: nat, b: nat)
    requires run.Valid() && a <= b <= 15 && run.AllGoBelow(b)
    ensures run.AllGoBelow(a)
  {
  }

  /** An image of more than fifteen headers ends every run in stage 2, before anything is loaded and whatever
      the headers say. */
  lemma SixteenRunLeavesHeaders(headers: seq<PartitionHeader>, next: u32, inputs: Inputs, attempts: seq<nat>,
                                p: Progress)
    requires 15 < |headers| <= 100 && inputs.Valid() && inputs.bootInitialize == SUCCESS
    requires inputs.primary == DeviceWith(headers, next) && LoadsResult(RunOf(inputs), attempts, p)
    ensures p == LeftArray && attempts == []
  {
    hide Find, DeviceWith;
    MoreOverrun(headers, next, inputs.secondary);
  }

  lemma NothingGoes(h: PartitionHeader, c: Config, d: Drivers)
    requires h == NO_HEADER
    ensures LoadStatus(h, c, d) == FAILURE && !Registers(h, c, d)
  {
    ZeroSum();
  }

  lemma ZeroSum()
    ensures Sum(NO_HEADER.words) == 0
  {
    var w := NO_HEADER.words;
    ZerosSum(w, 16);
    assert w[..16] == w;
  }

  lemma {:induction false} ZerosSum(words: seq<u32>, n: nat)
    requires n <= |words| && forall i :: 0 <= i < n ==> words[i] == 0
    ensures Sum(words[..n]) == 0
  {
    if n > 0 {
      ZerosSum(words, n - 1);
      assert words[..n][..n - 1] == words[..n - 1];
    }
  }

  /** A single device with no partitions: the first load fails. */
  lemma NoPartitionsFail(inputs: Inputs, attempts: seq<nat>, p: Progress)
    requires inputs.Valid() && RunOf(inputs).Starts() && RunOf(inputs).partitions == 0
    requires inputs.primary.NextDevice() == SAME_DEVICE && LoadsResult(RunOf(inputs), attempts, p)
    ensures p == Failed && attempts == [1]
  {
    hide RunOf, Run.TableBelow, LoadStatus, Registers;
    var run := RunOf(inputs);
    EmptyArray(inputs);
    NothingGoes(run.headers[1], run.config, run.drivers[1]);
    assert !run.Goes(1);
    NoTableYet(run);
    TableGrows(run, 1);
  }

  lemma EmptyArray(inputs: Inputs)
    requires inputs.Valid() && RunOf(inputs).Starts() && RunOf(inputs).partitions == 0
    requires inputs.primary.NextDevice() == SAME_DEVICE
    ensures RunOf(inputs).headers[1] == NO_HEADER
  {
    hide Table, Find, Node;
    RunHeaders(inputs);
    FoundImage(inputs.primary, inputs.secondary, NoHeaders());
  }

  // Fifteen partitions that belong to someone else.
  function SkippedHeaders(): (s: seq<PartitionHeader>)
    ensures |s| == 15 && Chained(s)
    ensures forall k :: 0 <= k < 15 ==> s[k] == Sealed(1, 1, 1, 0x400 + 16 * (k + 1), 0x1_0000)
  {
    seq(15, k requires 0 <= k < 15 => Sealed(1, 1, 1, 0x400 + 16 * (k + 1), 0x1_0000))
  }

  function StaleHeaders(): (inputs: Inputs)
    ensures inputs.Valid()
  {
    GoodInputs(DeviceWith(SkippedHeaders(), 1), DeviceWith([], SAME_DEVICE))
  }

  lemma StaleRun()
    ensures var run := RunOf(StaleHeaders());
      && run.Starts() && run.partitions == 0
      && forall k :: 0 <= k < 15 ==> run.headers[k] == Sealed(1, 1, 1, 0x400 + 16 * (k + 1), 0x1_0000)
  {
    hide Sealed, Find, Stored, DeviceWith;
    HeadersStay(SkippedHeaders(), 1, NoHeaders());
  }

  /** Two devices: the second image has no partitions, so the headers of the first are worked through, and the
      run goes on to a sixteenth. */
  lemma StaleRunLeavesHeaders(attempts: seq<nat>, p: Progress)
    requires LoadsResult(RunOf(StaleHeaders()), attempts, p)
    ensures p == LeftArray
  {
    hide RunOf, StaleHeaders, LoadsResult, LoadStatus, Sealed, TableLeft;
    var run := RunOf(StaleHeaders());
    StaleRun();
    forall k | 1 <= k < 15
      ensures run.Goes(k)
    {
      SkippedGoes(run.headers[k], 0x400 + 16 * (k + 1), run.config, run.drivers[k]);
    }
    LeftArrayIff(run, attempts, p);
  }

  lemma SkippedGoes(h: PartitionHeader, next: u32, c: Config, d: Drivers)
    requires h == Sealed(1, 1, 1, next, 0x1_0000)
    ensures LoadStatus(h, c, d) == PARTITION_SKIP_LOAD
  {
    hide Sealed, Checksummed, PartitionHeader.Attributes;
  }

  lemma {:induction false} FieldsGrow(run: Run, n: nat)
    requires run.Valid() && 1 <= n <= 12
    requires forall k :: 1 <= k < n ==> ForHandoff(run, k) && CpuAt(run, k) == EleventhCpu(k)
    ensures |CpuFields(run, n)| == n - 1
  {
    hide ForHandoff, CpuAt, EleventhCpu;
    if n > 1 {
      FieldsGrow(run, n - 1);
      EleventhFields(n - 1);
      var front := CpuFields(run, n - 1);
      assert EleventhCpu(n - 1) !in front;
      assert CpuFields(run, n) == front + {EleventhCpu(n - 1)};
    }
  }
}
