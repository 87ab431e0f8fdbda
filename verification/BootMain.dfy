// The stage machine of main.c, from initialisation to handoff or lock-down: the order of the loads and
// how they end.
module BootMain {
  import opened Bytes
  import opened Power
  import opened Tcm
  import opened Header
  import opened BootDevice
  import opened Loader
  import opened Handoff

  const BOOT_STATUS_JTAG: u32 := 3

  datatype Stage = Stage1 | Stage2 | Stage3 | Stage4 | StageErr | StageDefault

  // Everything main asks of the rest of the system: the status of stage 1, the two devices that stage 2 may
  // read, and what answers while partition k is loaded.
  datatype Inputs = Inputs(config: Config, bootInitialize: u32, primary: Source, secondary: Source,
                           drivers: seq<Drivers>, platform: Platform, a53Exec: bv32)
  {
    predicate Valid() {
      |drivers| == 15 && RunsLoader(config.running)
    }
  }

  // A run as stages 3 and 4 see it: the status of stage 2 or its overrun of the header array, the number of
  // partitions that the image claims, and the fifteen slots of that array.
  datatype Run = Run(config: Config, bootInitialize: u32, deviceInit: u32, overrun: bool, partitions: u32,
                     headers: Slots, drivers: seq<Drivers>, platform: Platform, a53Exec: bv32)
  {
    predicate Valid() {
      |drivers| == 15 && RunsLoader(config.running) && partitions <= 15
    }

    // Stages 1 and 2 hand over to stage 3.
    predicate Starts() {
      bootInitialize == SUCCESS && !overrun && deviceInit == SUCCESS
    }

    // NoOfPartitions - 1U.
    function Last(): u32 {
      if partitions == 0 then 0xFFFF_FFFF else partitions - 1
    }

    function Status(k: nat): u32
      requires Valid() && k < 15
    {
      LoadStatus(headers[k], config, drivers[k])
    }

    // Partition k loaded, or is not for this loader.
    predicate Goes(k: nat)
      requires Valid() && k < 15
    {
      Status(k) == SUCCESS || Status(k) == PARTITION_SKIP_LOAD
    }

    // Partitions 1 .. m-1 all did.
    predicate AllGoBelow(m: nat)
      requires Valid() && m <= 15
    {
      forall k :: 1 <= k < m ==> Goes(k)
    }

    // The registrations that partitions 1 .. m-1 make.
    function Registered(m: nat): seq<HandoffEntry>
      requires Valid() && m <= 15
    {
      if m <= 1 then [] else
        Registered(m - 1)
        + if Registers(headers[m - 1], config, drivers[m - 1]) then [EntryFor(headers[m - 1], config.running)] else []
    }

    function TableBelow(m: nat): seq<HandoffEntry>
      requires Valid() && m <= 15
    {
      Entered(Registered(m))
    }

    // The handoff table has slots for them.
    predicate InSlots(m: nat)
      requires Valid() && m <= 15
    {
      |TableBelow(m)| <= 10
    }

    function BanksBelow(b: Banks, m: nat): Banks
      requires Valid() && m <= 15
    {
      if m <= 1 then b else BanksAfter(BanksBelow(b, m - 1), headers[m - 1], config)
    }

    function RpuBelow(r: Rpu, m: nat): Rpu
      requires Valid() && m <= 15
    {
      if m <= 1 then r else RpuAfter(RpuBelow(r, m - 1), headers[m - 1], config)
    }

    // The cores when stage 4 begins.
    function CoresBelow(c: Cores, m: nat): Cores
      requires Valid() && m <= 15
    {
      Cores(c.apu, RpuBelow(c.rpu, m), c.log)
    }
  }

  // The run that follows: what stage 2 finds is all that the later stages see of the devices.
  function RunOf(inputs: Inputs): (run: Run)
    requires inputs.Valid()
    ensures run.Valid() && run.config == inputs.config && run.bootInitialize == inputs.bootInitialize
    ensures run.drivers == inputs.drivers && run.platform == inputs.platform && run.a53Exec == inputs.a53Exec
  {
    var Inputs(config, bootInitialize, primary, secondary, drivers, platform, a53Exec) := inputs;
    match Find(primary, secondary)
    case Refused(status) =>
      Run(config, bootInitialize, status, false, 0, NoHeaders(), drivers, platform, a53Exec)
    case Overrun =>
      Run(config, bootInitialize, SUCCESS, true, 0, NoHeaders(), drivers, platform, a53Exec)
    case Image(s) =>
      FoundImage(primary, secondary, NoHeaders());
      Run(config, bootInitialize, SUCCESS, false, s.Partitions(), Stored(primary, secondary, NoHeaders()),
              drivers, platform, a53Exec)
  }

  // The partitions that were attempted, in order: 1, 2, and so on.
  predicate Ascending(attempts: seq<nat>) {
    forall i :: 0 <= i < |attempts| ==> attempts[i] == i + 1
  }

  // How the loads end: stage 4 is entered, a stage fails, or the source leaves one of its two arrays,
  // the headers or the handoff table. The model stops there.
  datatype Progress = Reached | Failed | LeftArray

  datatype End = LockedDown | Left(exit: Exit) | Undefined

  // How far the loads got.
  predicate LoadsResult(run: Run, attempts: seq<nat>, p: Progress)
    requires run.Valid()
  {
    if run.bootInitialize != SUCCESS then attempts == [] && p == Failed
    else if run.overrun then attempts == [] && p == LeftArray
    else if run.deviceInit != SUCCESS then
      attempts == [] && p == if run.deviceInit == BOOT_STATUS_JTAG then Reached else Failed
    else
      var m := |attempts|;
      && Ascending(attempts) && m <= 14 && m <= run.Last() && run.AllGoBelow(m) && run.InSlots(m)
      && match p
         case Reached => m == run.Last() && run.AllGoBelow(m + 1) && run.InSlots(m + 1)
         case Failed => 0 < m && !run.Goes(m) && run.InSlots(m + 1)
         case LeftArray =>
           if run.InSlots(m + 1) then run.partitions == 0 && m == 14 && run.AllGoBelow(15) else 0 < m
  }

  // Rank of a stage: what is still ahead.
  function Rank(s: Stage): nat {
    match s
    case Stage1 => 5
    case Stage2 => 4
    case Stage3 => 3
    case Stage4 => 2
    case StageErr => 1
    case StageDefault => 0
  }

  // What is known when a stage is entered. Until the loads end p is Failed.
  ghost predicate AtStage(run: Run, s: Stage, partitionNum: nat, attempts: seq<nat>, p: Progress)
    requires run.Valid()
  {
    match s
    case Stage1 => attempts == [] && p == Failed
    case Stage2 => attempts == [] && p == Failed && run.bootInitialize == SUCCESS
    case Stage3 =>
      && run.Starts() && p == Failed
      && Ascending(attempts) && partitionNum == |attempts| + 1 && partitionNum <= 15 && partitionNum <= run.Last()
      && run.AllGoBelow(partitionNum) && run.InSlots(partitionNum)
    case Stage4 => LoadsResult(run, attempts, Reached) && p == Failed
    case StageErr => LoadsResult(run, attempts, p)
    case StageDefault => LoadsResult(run, attempts, p)
  }

  // One more partition attempted. An image without partitions goes on to slots that it did not fill, and in
  // the end to the sixteenth.
  lemma Attempted(run: Run, n: nat, attempts: seq<nat>)
    requires run.Valid() && AtStage(run, Stage3, n, attempts, Failed)
    ensures n == 15 ==> LoadsResult(run, attempts, LeftArray)
    ensures n < 15 ==>
      var more := attempts + [n];
      && (!run.InSlots(n + 1) ==> LoadsResult(run, more, LeftArray))
      && (run.InSlots(n + 1) && !run.Goes(n) ==> AtStage(run, StageErr, n, more, Failed))
      && (run.InSlots(n + 1) && run.Goes(n) && n < run.Last() ==> AtStage(run, Stage3, n + 1, more, Failed))
      && (run.InSlots(n + 1) && run.Goes(n) && n == run.Last() ==> AtStage(run, Stage4, n, more, Failed))
  {
    hide Run.Goes, Run.TableBelow;
    SlotsGrow(run, n - 1, n);
  }

  lemma TableGrows(run: Run, n: nat)
    requires run.Valid() && 1 <= n < 15
    ensures run.TableBelow(n + 1) ==
      if Registers(run.headers[n], run.config, run.drivers[n])
      then Enter(run.TableBelow(n), EntryFor(run.headers[n], run.config.running)) else run.TableBelow(n)
  {
    hide Registers, Enter, EntryFor;
    var es, e := run.Registered(n), EntryFor(run.headers[n], run.config.running);
    assert (es + [e])[..|es|] == es;
    assert es + [] == es;
  }

  lemma {:induction false} SlotsGrow(run: Run, a: nat, b: nat)
    requires run.Valid() && a <= b <= 15
    ensures |run.TableBelow(a)| <= |run.TableBelow(b)|
  {
    hide Registers, EntryFor, Run.TableBelow;
    if a < b {
      SlotsGrow(run, a, b - 1);
      if b >= 2 {
        TableGrows(run, b - 1);
      } else {
        NoTableYet(run);
      }
    }
  }

  lemma NoTableYet(run: Run)
    requires run.Valid()
    ensures run.TableBelow(0) == run.TableBelow(1) == []
  {
  }

  // Stage 2 has filled the header array.
  ghost predicate HeadersFound(run: Run, headers: ImageHeader)
    requires headers.Valid()
    reads headers, headers.partitionHeader
  {
    headers.Headers() == run.headers && NoOfPartitions(headers.table) == run.partitions
  }

  // What has become of the cores, and how the run ends if nothing follows: m-1 loads were attempted.
  ghost predicate Ended(run: Run, m: nat, before: Cores, after: Cores, p: Progress, end: End, table: seq<HandoffEntry>)
    requires run.Valid() && m <= 15
  {
    var loaded := run.CoresBelow(before, m);
    match p
    case Reached => HandoffResult(run, loaded, after, end, table)
    case Failed => end == LockedDown && after == loaded
    case LeftArray => end == Undefined && after == loaded
  }

  // Everything that is known when a stage is entered.
  ghost predicate At(run: Run, stage: Stage, n: nat, attempts: seq<nat>, p: Progress, end: End,
                     headers: ImageHeader, boot: BootPs, soc: Soc, banks: Banks, cores: Cores)
    reads headers, headers.partitionHeader, boot, boot.handoffValues, boot.tcm, soc, soc.rpu
  {
    && run.Valid() && headers.Valid() && boot.Valid() && boot.config == run.config && boot.tcm.rpu == soc.rpu
    && n <= 15 && |attempts| <= 14 && AtStage(run, stage, n, attempts, p)
    && (stage == Stage1 || stage == Stage2 ==> headers.Headers() == NoHeaders())
    && (stage == Stage3 ==> HeadersFound(run, headers))
    && (p != LeftArray ==> boot.Table() == run.TableBelow(|attempts| + 1))
    && boot.tcm.View() == run.BanksBelow(banks, |attempts| + 1)
    && Ended(run, |attempts| + 1, cores, soc.View(), p, end, boot.Table())
  }

  // The stages, from the state that the TCM part of stage 1 leaves (the constructor of BootPs); the failure of
  // stage 1 is a status.
  method BootLoop(inputs: Inputs, headers: ImageHeader, boot: BootPs, soc: Soc)
    returns (attempts: seq<nat>, progress: Progress, end: End)
    requires inputs.Valid() && headers.Valid() && headers.Headers() == NoHeaders()
    requires boot.Valid() && boot.config == inputs.config && boot.Table() == [] && boot.tcm.rpu == soc.rpu
    modifies headers, headers.partitionHeader, headers.atf
    modifies boot`handoffCpuNo, boot.handoffValues, boot.tcm, soc, soc.rpu
    ensures boot.Valid() && |attempts| <= 14
    ensures LoadsResult(RunOf(inputs), attempts, progress)
    ensures progress != LeftArray ==> boot.Table() == RunOf(inputs).TableBelow(|attempts| + 1)
    ensures boot.tcm.View() == RunOf(inputs).BanksBelow(old(boot.tcm.View()), |attempts| + 1)
    ensures Ended(RunOf(inputs), |attempts| + 1, old(soc.View()), soc.View(), progress, end, boot.Table())
  {
    hide RunOf, LoadsResult, Ended, HeadersFound, Distinct, Run.TableBelow, Run.BanksBelow;
    ghost var run, banks, cores := RunOf(inputs), boot.tcm.View(), soc.View();
    var stage: Stage, partitionNum: nat := Stage1, 0;
    attempts, progress, end := [], Failed, LockedDown;
    Begins(run, headers, boot, soc);
    while stage != StageDefault
      invariant At(run, stage, partitionNum, attempts, progress, end, headers, boot, soc, banks, cores)
      invariant partitionNum <= 15
      decreases Rank(stage), 15 - partitionNum
    {
      hide At;
      match stage
      case Stage1 =>
        InitialiseEnds(run, attempts, end, headers, boot, soc, banks, cores);
        stage := if inputs.bootInitialize != SUCCESS then StageErr else Stage2;
      case Stage2 =>
        stage, partitionNum, progress, end := FindImage(inputs, headers, boot, soc, attempts, end, banks, cores);
      case Stage3 =>
        stage, partitionNum, attempts, progress, end :=
          LoadNext(run, headers, boot, soc, partitionNum, inputs.drivers, attempts, end, banks, cores);
      case Stage4 =>
        stage, progress, end := Handover(inputs, headers, boot, soc, partitionNum, attempts, end, banks, cores);
      case StageErr =>
        LockDown(run, partitionNum, attempts, progress, end, headers, boot, soc, banks, cores);
        stage := StageDefault;
    }
  }

  lemma Begins(run: Run, headers: ImageHeader, boot: BootPs, soc: Soc)
    requires run.Valid() && headers.Valid() && headers.Headers() == NoHeaders()
    requires boot.Valid() && boot.config == run.config && boot.Table() == [] && boot.tcm.rpu == soc.rpu
    ensures At(run, Stage1, 0, [], Failed, LockedDown, headers, boot, soc, boot.tcm.View(), soc.View())
  {
    hide Run.TableBelow, Run.BanksBelow, Run.CoresBelow, Distinct;
    NothingLoaded(run, boot.tcm.View(), soc.View());
  }

  lemma InitialiseEnds(run: Run, attempts: seq<nat>, end: End, headers: ImageHeader, boot: BootPs, soc: Soc,
                       banks: Banks, cores: Cores)
    requires At(run, Stage1, 0, attempts, Failed, end, headers, boot, soc, banks, cores)
    ensures At(run, if run.bootInitialize != SUCCESS then StageErr else Stage2, 0, attempts, Failed, end,
               headers, boot, soc, banks, cores)
  {
    hide Ended, Run.TableBelow, Run.BanksBelow;
  }

  lemma LockDown(run: Run, n: nat, attempts: seq<nat>, p: Progress, end: End, headers: ImageHeader, boot: BootPs,
                 soc: Soc, banks: Banks, cores: Cores)
    requires At(run, StageErr, n, attempts, p, end, headers, boot, soc, banks, cores)
    ensures At(run, StageDefault, n, attempts, p, end, headers, boot, soc, banks, cores)
  {
    hide Ended, Run.TableBelow, Run.BanksBelow, LoadsResult;
  }

  // Stage 2.
  method FindImage(inputs: Inputs, headers: ImageHeader, ghost boot: BootPs, ghost soc: Soc, ghost attempts: seq<nat>,
                   ghost end: End, ghost banks: Banks, ghost cores: Cores)
    returns (stage: Stage, next: nat, progress: Progress, end': End)
    requires inputs.Valid()
    requires At(RunOf(inputs), Stage2, 0, attempts, Failed, end, headers, boot, soc, banks, cores)
    modifies headers, headers.partitionHeader, headers.atf
    ensures At(RunOf(inputs), stage, next, attempts, progress, end', headers, boot, soc, banks, cores)
    ensures Rank(stage) < Rank(Stage2) && next <= 15
  {
    hide RunOf, LoadsResult, Distinct, Run.TableBelow, Run.BanksBelow, Run.CoresBelow, Run.Goes, Run.InSlots,
         Run.AllGoBelow, ImageHeader.Headers;
    Endings(RunOf(inputs));
    next, progress, end' := 0, Failed, LockedDown;
    var status, inside := ReadImage(inputs, headers);
    if !inside {
      stage, progress, end' := StageDefault, LeftArray, Undefined;
    } else if status != SUCCESS && status != BOOT_STATUS_JTAG {
      stage := StageErr;
    } else if status == BOOT_STATUS_JTAG {
      stage := Stage4;
    } else {
      next := 1;
      stage := if NoOfPartitions(headers.table) == 1 then Stage4 else Stage3;
    }
  }

  method ReadImage(inputs: Inputs, headers: ImageHeader) returns (status: u32, inside: bool)
    requires inputs.Valid() && headers.Valid() && headers.Headers() == NoHeaders()
    modifies headers, headers.partitionHeader, headers.atf
    ensures headers.Valid() && (inside <==> !RunOf(inputs).overrun)
    ensures inside ==> status == RunOf(inputs).deviceInit
    ensures inside && status == SUCCESS ==> HeadersFound(RunOf(inputs), headers)
  {
    hide Find, Stored, StoredList, Table;
    status, inside := BootDeviceInitAndValidate(inputs.primary, inputs.secondary, headers, inputs.config.running);
  }

  lemma EntersLoad(run: Run, n: nat, attempts: seq<nat>, end: End, headers: ImageHeader, boot: BootPs, soc: Soc,
                   banks: Banks, cores: Cores)
    requires At(run, Stage3, n, attempts, Failed, end, headers, boot, soc, banks, cores)
    ensures run.Valid() && headers.Valid() && boot.Valid() && boot.config == run.config && boot.tcm.rpu == soc.rpu
    ensures AtStage(run, Stage3, n, attempts, Failed) && HeadersFound(run, headers) && end == LockedDown
    ensures 1 <= n == |attempts| + 1 <= 15 && run.InSlots(n)
    ensures boot.Table() == run.TableBelow(n)
    ensures boot.tcm.View() == run.BanksBelow(banks, n) && soc.View() == run.CoresBelow(cores, n)
  {
    hide Run.TableBelow, Run.BanksBelow, Run.CoresBelow, Run.Goes, Distinct;
  }

  lemma LeavesLoad(run: Run, stage: Stage, next: nat, more: seq<nat>, p: Progress, headers: ImageHeader, boot: BootPs,
                   soc: Soc, banks: Banks, cores: Cores)
    requires run.Valid() && headers.Valid() && boot.Valid() && boot.config == run.config && boot.tcm.rpu == soc.rpu
    requires next <= 15 && |more| <= 14 && AtStage(run, stage, next, more, p) && HeadersFound(run, headers)
    requires stage != Stage1 && stage != Stage2 && p != Reached
    requires p != LeftArray ==> boot.Table() == run.TableBelow(|more| + 1)
    requires boot.tcm.View() == run.BanksBelow(banks, |more| + 1) && soc.View() == run.CoresBelow(cores, |more| + 1)
    ensures At(run, stage, next, more, p, if p == LeftArray then Undefined else LockedDown,
               headers, boot, soc, banks, cores)
  {
    hide Run.TableBelow, Run.BanksBelow, Run.CoresBelow, AtStage, Distinct;
  }

  // Stage 3: load one partition, and choose what follows.
  method LoadNext(ghost run: Run, headers: ImageHeader, boot: BootPs, ghost soc: Soc, n: nat, drivers: seq<Drivers>,
                  attempts: seq<nat>, ghost end: End, ghost banks: Banks, ghost cores: Cores)
    returns (stage: Stage, next: nat, more: seq<nat>, progress: Progress, end': End)
    requires At(run, Stage3, n, attempts, Failed, end, headers, boot, soc, banks, cores) && drivers == run.drivers
    modifies boot`handoffCpuNo, boot.handoffValues, boot.tcm, boot.tcm.rpu
    ensures At(run, stage, next, more, progress, end', headers, boot, soc, banks, cores)
    ensures Rank(stage) < Rank(Stage3) || (stage == Stage3 && n < next)
    ensures next <= 15
  {
    hide At, LoadsResult, HeadersFound, Ascending, Run.TableBelow, Run.BanksBelow, Run.CoresBelow, Run.Goes, Run.InSlots,
         Run.AllGoBelow, BootPs.Valid, ImageHeader.Valid;
    EntersLoad(run, n, attempts, end, headers, boot, soc, banks, cores);
    Attempted(run, n, attempts);
    stage, next, more, progress, end' := StageDefault, n, attempts, LeftArray, Undefined;
    if n < 15 {
      more := attempts + [n];
      var inside;
      stage, next, inside := LoadPartition(run, headers, boot, soc, n, drivers[n], banks, cores);
      if inside {
        progress, end' := Failed, LockedDown;
      } else {
        stage := StageDefault;
      }
    }
    LeavesLoad(run, stage, next, more, progress, headers, boot, soc, banks, cores);
  }

  method LoadPartition(ghost run: Run, headers: ImageHeader, boot: BootPs, ghost soc: Soc, n: nat, drivers: Drivers,
                       ghost banks: Banks, ghost cores: Cores)
    returns (stage: Stage, next: nat, inside: bool)
    requires run.Valid() && boot.Valid() && boot.config == run.config && 1 <= n < 15 && boot.tcm.rpu == soc.rpu
    requires headers.Valid() && HeadersFound(run, headers) && drivers == run.drivers[n]
    requires boot.Table() == run.TableBelow(n) && run.InSlots(n)
    requires boot.tcm.View() == run.BanksBelow(banks, n) && soc.View() == run.CoresBelow(cores, n)
    modifies boot`handoffCpuNo, boot.handoffValues, boot.tcm, boot.tcm.rpu
    ensures boot.Valid() && (inside <==> run.InSlots(n + 1))
    ensures inside ==> boot.Table() == run.TableBelow(n + 1)
    ensures boot.tcm.View() == run.BanksBelow(banks, n + 1) && soc.View() == run.CoresBelow(cores, n + 1)
    ensures
      if inside && !run.Goes(n) then stage == StageErr && next == n
      else if n < run.Last() then stage == Stage3 && next == n + 1
      else stage == Stage4 && next == n
  {
    hide LoadStatus, Registers, Enter, EntryFor, BanksAfter, RpuAfter, Run.TableBelow;
    TableGrows(run, n);
    var status;
    status, inside := boot.PartitionLoad(headers.partitionHeader[n], drivers);
    next := n;
    var partitions := NoOfPartitions(headers.table);
    if inside && status != SUCCESS && status != PARTITION_SKIP_LOAD {
      stage := StageErr;
    } else if n < (if partitions == 0 then 0xFFFF_FFFF else partitions - 1) {
      stage, next := Stage3, n + 1;
    } else {
      stage := Stage4;
    }
  }

  // Stage 4. Without early handoff BootHandoff never asks for the loading to be continued.
  method Handover(inputs: Inputs, ghost headers: ImageHeader, boot: BootPs, soc: Soc, ghost n: nat,
                  ghost attempts: seq<nat>, ghost end: End, ghost banks: Banks, ghost cores: Cores)
    returns (stage: Stage, progress: Progress, end': End)
    requires inputs.Valid()
    requires At(RunOf(inputs), Stage4, n, attempts, Failed, end, headers, boot, soc, banks, cores)
    modifies soc, soc.rpu
    ensures At(RunOf(inputs), stage, n, attempts, progress, end', headers, boot, soc, banks, cores)
    ensures Rank(stage) < Rank(Stage4)
  {
    hide RunOf, LoadsResult, LoopResult, Distinct, Run.TableBelow, Run.BanksBelow, Run.CoresBelow;
    progress := Reached;
    var x := soc.BootHandoff(boot.Table(), inputs.config.running, inputs.a53Exec, inputs.platform);
    end' := if x.Returned? then LockedDown else Left(x);
    stage := if end'.Left? then StageDefault else StageErr;
  }

  // What stage 4 does with the cores, and how the run ends.
  ghost predicate HandoffResult(run: Run, before: Cores, after: Cores, end: End, table: seq<HandoffEntry>) {
    if !run.platform.Ready() || !run.platform.protected then end == LockedDown && after == before
    else if run.platform.jtag then end == Left(Wait) && after == before
    else exists x :: LoopResult(before, after, x, table, run.config.running, run.a53Exec)
                     && end == if x.Returned? then LockedDown else Left(x)
  }

  lemma NothingLoaded(run: Run, b: Banks, c: Cores)
    requires run.Valid()
    ensures run.TableBelow(1) == [] && run.BanksBelow(b, 1) == b && run.CoresBelow(c, 1) == c
  {
  }

  // How the runs that load nothing end, and how the others begin.
  lemma Endings(run: Run)
    requires run.Valid()
    ensures run.bootInitialize != SUCCESS ==> LoadsResult(run, [], Failed)
    ensures run.bootInitialize == SUCCESS && run.overrun ==> LoadsResult(run, [], LeftArray)
    ensures run.bootInitialize == SUCCESS && !run.overrun && run.deviceInit != SUCCESS ==>
      LoadsResult(run, [], if run.deviceInit == BOOT_STATUS_JTAG then Reached else Failed)
    ensures run.Starts() && run.partitions == 1 ==> LoadsResult(run, [], Reached)
    ensures run.Starts() && run.partitions != 1 ==> AtStage(run, Stage3, 1, [], Failed)
  {
    NoTableYet(run);
  }
}
