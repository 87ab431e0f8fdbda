// What holds of every run of the boot loader: which partition each core is started with, and what becomes of
// the R5 pair and its memory.
module EndToEnd {
  import opened Bytes
  import opened Power
  import opened Tcm
  import opened Header
  import opened BootDevice
  import opened Loader
  import opened Handoff
  import opened Released
  import opened BootMain

  /** End to end: which partition a core is started with. */

  // A partition that the loader hands to some core when it loads.
  predicate ForHandoff(run: Run, k: nat)
    requires run.Valid() && k < 15
  {
    var h := run.headers[k];
    OwnedByFsbl(h) && (Xip(h) || Dest(h) == PS)
  }

  function CpuAt(run: Run, k: nat): Cpu
    requires run.Valid() && k < 15
  {
    run.headers[k].ResolvedCpu(run.config.running)
  }

  predicate For(run: Run, k: nat, cpu: Cpu)
    requires run.Valid() && k < 15
  {
    ForHandoff(run, k) && CpuAt(run, k) == cpu
  }

  function FirstFor(run: Run, cpu: Cpu, m: nat): (r: Option<nat>)
    requires run.Valid() && m <= 15
    ensures r.Some? ==> 1 <= r.value < m && For(run, r.value, cpu)
    ensures r.Some? ==> forall k :: 1 <= k < r.value ==> !For(run, k, cpu)
    ensures r.None? ==> forall k :: 1 <= k < m ==> !For(run, k, cpu)
  {
    hide For;
    if m <= 1 then None
    else if FirstFor(run, cpu, m - 1).Some? then FirstFor(run, cpu, m - 1)
    else if For(run, m - 1, cpu) then Some(m - 1)
    else None
  }

  function EntryOf(run: Run, k: nat): HandoffEntry
    requires run.Valid() && k < 15
  {
    EntryFor(run.headers[k], run.config.running)
  }

  // The table entry of a core, if the first partition for it is the given one.
  ghost predicate Lists(table: seq<HandoffEntry>, run: Run, cpu: Cpu, f: Option<nat>)
    requires run.Valid() && (f.Some? ==> f.value < 15)
  {
    match f
    case Some(k) => EntryOf(run, k) in table && EntryOf(run, k).Cpu() == cpu
    case None => !Has(table, cpu)
  }

  lemma RegistersFor(run: Run, k: nat, cpu: Cpu)
    requires run.Valid() && k < 15 && run.Goes(k)
    ensures For(run, k, cpu) <==>
      Registers(run.headers[k], run.config, run.drivers[k]) && CpuAt(run, k) == cpu
    ensures EntryOf(run, k).Cpu() == CpuAt(run, k)
  {
  }

  lemma EnterLists(table: seq<HandoffEntry>, e: HandoffEntry, cpu: Cpu)
    ensures Has(Enter(table, e), cpu) <==> Has(table, cpu) || e.Cpu() == cpu
    ensures forall x :: x in table ==> x in Enter(table, e)
    ensures !Has(table, e.Cpu()) ==> e in Enter(table, e)
  {
    HasAppend(table, e, cpu);
  }

  lemma {:induction false} TableLists(run: Run, cpu: Cpu, m: nat)
    requires run.Valid() && 1 <= m <= 15 && run.AllGoBelow(m)
    ensures Lists(run.TableBelow(m), run, cpu, FirstFor(run, cpu, m))
  {
    hide Registers, LoadStatus, For, EntryFor, Has, Enter, HandoffEntry.Cpu, PartitionHeader.ResolvedCpu, Run.TableBelow, Run.Goes;
    if m == 1 {
      EmptyTable(run, cpu);
    } else {
      TableLists(run, cpu, m - 1);
      TableGrows(run, m - 1);
      RegistersFor(run, m - 1, cpu);
      EnterLists(run.TableBelow(m - 1), EntryOf(run, m - 1), cpu);
    }
  }

  lemma EmptyTable(run: Run, cpu: Cpu)
    requires run.Valid()
    ensures !Has(run.TableBelow(1), cpu)
  {
  }

  // Started with the entry of partition k: vector, then release, together in the log.
  ghost predicate StartedWith(log: seq<Event>, e: HandoffEntry) {
    exists p: nat :: EventsAt(log, p, e)
  }

  lemma TableIsDistinct(run: Run, m: nat)
    requires run.Valid() && m <= 15
    ensures Distinct(run.TableBelow(m))
  {
    hide Distinct;
    FirstPartitionWins(run.Registered(m));
  }

  lemma ListedAt(table: seq<HandoffEntry>, run: Run, cpu: Cpu, f: nat) returns (k: nat)
    requires run.Valid() && f < 15 && Lists(table, run, cpu, Some(f))
    ensures k < |table| && table[k] == EntryOf(run, f) && table[k].Cpu() == cpu && Has(table, cpu)
  {
    k :| 0 <= k < |table| && table[k] == EntryOf(run, f);
  }

  // What the header of a partition tells its core.
  function ToldBy(h: PartitionHeader, cpu: Cpu): seq<Event> {
    Instructions(cpu, h.Attributes(), h.Attributes(), h.ExecutionAddress())
  }

  lemma EntryTells(run: Run, k: nat, cpu: Cpu)
    requires run.Valid() && k < 15
    ensures var e := EntryOf(run, k);
      Instructions(cpu, e.cpuSettings, e.attributes, e.address) == ToldBy(run.headers[k], cpu)
  {
    hide CpuOf, RunsLoader, PartitionHeader.ResolvedCpu, PartitionHeader.Attributes;
    NamesItself(run.config.running);
    SettingsDecode(run.headers[k], run.config.running);
    ExecBit(EntryOf(run, k));
  }

  /** Whenever every load succeeds or is skipped and the loop is left for good, each core but the running
      one is released once, with the vector of the first partition for it, or not at all if there is none. What
      that partition says, and nothing else, has been told to the core before. */
  lemma OtherCoresEndToEnd(run: Run, n: nat, before: Cores, after: Cores, x: Exit, cpu: Cpu)
    requires run.Valid() && 1 <= n <= 15 && run.AllGoBelow(n) && before.log == []
    requires (IsA53(cpu) || IsR5(cpu)) && cpu != run.config.running
    requires LoopResult(run.CoresBelow(before, n), after, x, run.TableBelow(n), run.config.running, run.a53Exec)
    requires !x.Returned?
    ensures var f := FirstFor(run, cpu, n);
      && Count(after.log, Release(cpu)) == (if f.Some? then 1 else 0)
      && (f.Some? ==> StartedWith(after.log, EntryOf(run, f.value)))
      && if f.Some? then ToldFirst(after.log, cpu, ToldBy(run.headers[f.value], cpu)) else Untold(after.log, cpu)
  {
    hide For, EventsOf, Count, LogOf, Run.Goes, HandedAll, EntryStatus, EntryOf, Has, Distinct, EventsAt, IsA53, IsR5,
         HandoffEntry.Cpu, Run.TableBelow, ExitOf, ToldFirst, Untold, Instructions, ToldBy;
    var table, running := run.TableBelow(n), run.config.running;
    var f := FirstFor(run, cpu, n);
    TableLists(run, cpu, n);
    TableIsDistinct(run, n);
    LogOfPass(run.CoresBelow(before, n), table, running);
    assert [] + LogOf(table, running) == LogOf(table, running);
    ReleasedOnce(table, running, cpu);
    if f.Some? {
      var k := ListedAt(table, run, cpu, f.value);
      VectorThenRelease(table, running, k);
      ToldThenReleased(table, running, k);
      EntryTells(run, f.value, cpu);
    } else {
      NobodyTold(table, running, cpu);
    }
  }

  /** The running core leaves for the first partition for it, or waits. */
  lemma RunningCoreEndToEnd(run: Run, n: nat, before: Cores, after: Cores, x: Exit)
    requires run.Valid() && 1 <= n <= 15 && run.AllGoBelow(n)
    requires LoopResult(run.CoresBelow(before, n), after, x, run.TableBelow(n), run.config.running, run.a53Exec)
    requires !x.Returned?
    ensures match FirstFor(run, run.config.running, n)
      case Some(f) =>
        x == Jump(run.headers[f].ExecutionAddress(), run.headers[f].Attributes() & 0x8 != 0)
      case None => x == Wait
  {
    hide For, Run.Goes, HandedAll, EntryStatus, EntryOf, Has, Distinct, HandoffEntry.Cpu, HandoffEntry.Exec,
         Run.TableBelow, ExitOf, Address, PartitionHeader.ExecutionAddress, ExecState;
    var table, running := run.TableBelow(n), run.config.running;
    TableLists(run, running, n);
    TableIsDistinct(run, n);
    match FirstFor(run, running, n)
    case Some(f) =>
      var k := ListedAt(table, run, running, f);
      ExitIsOwnEntry(table, running, k);
      EntryFields(run, f);
      StateBit(run.headers[f].Attributes());
    case None =>
      NoOwnEntry(table, running);
  }

  // Every partition to be handed over is for the running core or for one that can be released, and the
  // running core keeps its execution state.
  predicate Startable(run: Run, n: nat)
    requires run.Valid() && n <= 15
  {
    && (forall k :: 1 <= k < n && ForHandoff(run, k) ==> StartableCpu(CpuAt(run, k), run.config.running))
    && match FirstFor(run, run.config.running, n)
       case Some(f) => KeepsState(run.headers[f].Attributes(), run.a53Exec)
       case None => true
  }

  // A loader that runs in 64-bit state (0) or in 32-bit state (8) stays in it.
  predicate KeepsState(attributes: bv32, a53Exec: bv32) {
    (a53Exec == 0 ==> attributes & 0x8 == 0) && (a53Exec == 8 ==> attributes & 0x8 == 8)
  }

  predicate StartableCpu(cpu: Cpu, running: Cpu) {
    cpu == running || IsA53(cpu) || IsR5(cpu)
  }

  lemma StatusOfEntry(e: HandoffEntry, running: Cpu, a53Exec: bv32)
    ensures e.Cpu() != running ==> (EntryStatus(e, running, a53Exec) == 0 <==> StartableCpu(e.Cpu(), running))
    ensures e.Cpu() == running ==> (EntryStatus(e, running, a53Exec) == 0 <==> KeepsState(e.cpuSettings, a53Exec))
  {
    hide CpuOf;
    ExecIsOneBit(e.cpuSettings);
  }

  lemma OwnState(run: Run, k: nat)
    requires run.Valid() && k < 15
    ensures KeepsState(EntryOf(run, k).cpuSettings, run.a53Exec) <==> KeepsState(run.headers[k].Attributes(), run.a53Exec)
  {
    hide CpuOf, RunsLoader, PartitionHeader.ResolvedCpu, PartitionHeader.Attributes;
    NamesItself(run.config.running);
    SettingsDecode(run.headers[k], run.config.running);
  }

  // Entry k of the table comes from the first partition for its core.
  lemma EntryComesFrom(run: Run, n: nat, k: nat) returns (f: nat)
    requires run.Valid() && 1 <= n <= 15 && run.AllGoBelow(n) && k < |run.TableBelow(n)|
    ensures var e := run.TableBelow(n)[k];
      && FirstFor(run, e.Cpu(), n) == Some(f) && 1 <= f < n && ForHandoff(run, f)
      && CpuAt(run, f) == e.Cpu() && e == EntryOf(run, f)
  {
    hide ForHandoff, CpuAt, Run.Goes, EntryOf, HandoffEntry.Cpu, Run.TableBelow;
    var table := run.TableBelow(n);
    var cpu := table[k].Cpu();
    TableIsDistinct(run, n);
    TableLists(run, cpu, n);
    assert Has(table, cpu);
    f := FirstFor(run, cpu, n).value;
    var i := ListedAt(table, run, cpu, f);
    assert i == k;
  }

  /** Exactly then does the loop over the table end without an error. */
  lemma LoopGoesIff(run: Run, n: nat)
    requires run.Valid() && 1 <= n <= 15 && run.AllGoBelow(n)
    ensures AllGo(run.TableBelow(n), run.config.running, run.a53Exec) <==> Startable(run, n)
  {
    hide ForHandoff, CpuAt, Run.Goes, EntryOf, StartableCpu, KeepsState, EntryStatus, HandoffEntry.Cpu, Run.TableBelow;
    var table, running := run.TableBelow(n), run.config.running;
    if Startable(run, n) {
      forall k | 0 <= k < |table|
        ensures EntryStatus(table[k], running, run.a53Exec) == SUCCESS
      {
        var f := EntryComesFrom(run, n, k);
        StatusOfEntry(table[k], running, run.a53Exec);
        OwnState(run, f);
      }
    }
    if AllGo(table, running, run.a53Exec) {
      forall k | 1 <= k < n && ForHandoff(run, k)
        ensures StartableCpu(CpuAt(run, k), running)
      {
        PartitionGoes(run, n, k);
      }
      TableLists(run, running, n);
      if FirstFor(run, running, n).Some? {
        var f := FirstFor(run, running, n).value;
        var i := ListedAt(table, run, running, f);
        StatusOfEntry(table[i], running, run.a53Exec);
        OwnState(run, f);
      }
    }
  }

  lemma PartitionGoes(run: Run, n: nat, k: nat)
    requires run.Valid() && n <= 15 && run.AllGoBelow(n) && 1 <= k < n && ForHandoff(run, k)
    requires AllGo(run.TableBelow(n), run.config.running, run.a53Exec)
    ensures StartableCpu(CpuAt(run, k), run.config.running)
  {
    hide ForHandoff, CpuAt, Run.Goes, EntryOf, EntryStatus, HandoffEntry.Cpu, Run.TableBelow;
    var table, cpu := run.TableBelow(n), CpuAt(run, k);
    TableLists(run, cpu, n);
    assert For(run, k, cpu);
    var i := ListedAt(table, run, cpu, FirstFor(run, cpu, n).value);
    StatusOfEntry(table[i], run.config.running, run.a53Exec);
  }

  // Whether the table releases an A53 core, and in which state.
  lemma ReleasedIfListed(run: Run, n: nat, cpu: Cpu)
    requires run.Valid() && 1 <= n <= 15 && run.AllGoBelow(n)
    requires IsA53(cpu) && cpu != run.config.running
    ensures var table, running, i, f := run.TableBelow(n), run.config.running, CoreOf(cpu), FirstFor(run, cpu, n);
      && (ReleasesA53(table, running, i) <==> f.Some?)
      && (ReleasesAs32(table, running, i) <==> f.Some? && EntryOf(run, f.value).Exec() == AA32)
      && (ReleasesAs64(table, running, i) <==> f.Some? && EntryOf(run, f.value).Exec() == AA64)
  {
    hide For, Run.Goes, EntryOf, IsA53, CoreOf, HandoffEntry.Cpu, HandoffEntry.Exec, Run.TableBelow;
    var table, running, i, f := run.TableBelow(n), run.config.running, CoreOf(cpu), FirstFor(run, cpu, n);
    TableLists(run, cpu, n);
    TableIsDistinct(run, n);
    forall k | 0 <= k < |table|
      ensures Releases(table[k], running, i) <==> table[k].Cpu() == cpu
    {
      if IsA53(table[k].Cpu()) {
        SameCore(table[k].Cpu(), cpu);
      }
    }
    if f.Some? {
      var k := ListedAt(table, run, cpu, f.value);
      assert Releases(table[k], running, i);
    }
  }

  /** The registers of an A53 core other than the running one: out of reset at the execution address of the
      first partition for it, or in 32-bit state, or all as they were. */
  lemma A53Registers(run: Run, n: nat, before: Cores, after: Cores, x: Exit, cpu: Cpu)
    requires run.Valid() && 1 <= n <= 15 && run.AllGoBelow(n)
    requires IsA53(cpu) && cpu != run.config.running
    requires LoopResult(run.CoresBelow(before, n), after, x, run.TableBelow(n), run.config.running, run.a53Exec)
    requires !x.Returned?
    ensures var i, f, a, was := CoreOf(cpu), FirstFor(run, cpu, n), after.apu, before.apu;
      match f
      case None =>
        ResetBits(a.reset, i) == ResetBits(was.reset, i) && ModeBit(a.config, i) == ModeBit(was.config, i)
        && Rvbar(a, i) == Rvbar(was, i)
      case Some(k) =>
        && ResetBits(a.reset, i) == 0
        && if run.headers[k].Attributes() & 0x8 == 0
           then Rvbar(a, i) == run.headers[k].ExecutionAddress() && ModeBit(a.config, i) == ModeBit(was.config, i)
           else Rvbar(a, i) == Rvbar(was, i) && ModeBit(a.config, i) == 0
  {
    hide For, Run.Goes, EntryOf, IsA53, CoreOf, HandoffEntry.Cpu, HandoffEntry.Exec, Run.TableBelow, HandedAll, ExecState,
         Distinct, ResetBits, ModeBit, Rvbar, ReleasesA53, ReleasesAs32, ReleasesAs64, Address, PartitionHeader.ExecutionAddress;
    var table, running, i := run.TableBelow(n), run.config.running, CoreOf(cpu);
    var loaded := run.CoresBelow(before, n);
    ReleasedIfListed(run, n, cpu);
    ResetRegister(loaded, table, running, i);
    ConfigRegister(loaded, table, running, i);
    match FirstFor(run, cpu, n)
    case None =>
      RvbarUntouched(loaded, table, running, i);
    case Some(f) =>
      EntryFields(run, f);
      StateBit(run.headers[f].Attributes());
      if EntryOf(run, f).Exec() == AA64 {
        TableLists(run, cpu, n);
        TableIsDistinct(run, n);
        var k := ListedAt(table, run, cpu, f);
        RvbarRegister(loaded, table, running, k);
        DifferentStates();
      } else {
        RvbarUntouched(loaded, table, running, i);
      }
  }

  // A core other than the running one has a partition.
  predicate HandsOver(run: Run, n: nat, cpu: Cpu)
    requires run.Valid() && n <= 15
  {
    cpu != run.config.running && FirstFor(run, cpu, n).Some?
  }

  lemma StartsIfListed(run: Run, n: nat, second: bool)
    requires run.Valid() && 1 <= n <= 15 && run.AllGoBelow(n)
    ensures Starts(run.TableBelow(n), run.config.running, second) <==>
      HandsOver(run, n, if second then R5_1 else R5_0) || HandsOver(run, n, R5_L)
  {
    hide For, Run.Goes, EntryOf, HandoffEntry.Cpu, Run.TableBelow;
    var table, running, own := run.TableBelow(n), run.config.running, if second then R5_1 else R5_0;
    TableLists(run, own, n);
    TableLists(run, R5_L, n);
    if HandsOver(run, n, own) {
      var k := ListedAt(table, run, own, FirstFor(run, own, n).value);
      assert StartsOne(table[k], running, second);
    }
    if HandsOver(run, n, R5_L) {
      var k := ListedAt(table, run, R5_L, FirstFor(run, R5_L, n).value);
      assert StartsOne(table[k], running, second);
    }
  }

  /** The R5 pair while partitions are loaded. */

  // Partition k is a TCM image for a core of the pair that does not run the loader: its copy powers the memory up.
  predicate PowersUp(run: Run, k: nat)
    requires run.Valid() && k < 15
  {
    var h, c := run.headers[k], run.config;
    && HeaderStatus(h, c) == SUCCESS && Copied(h, c)
    && ImageOf(h, c).InBanks() && ImageOf(h, c).cpu != c.running
  }

  predicate PoweredBelow(run: Run, m: nat, second: bool)
    requires run.Valid() && m <= 15
  {
    exists k :: 1 <= k < m && PowersUp(run, k) && Covers(CpuAt(run, k), second)
  }

  lemma RpuStep(run: Run, r: Rpu, k: nat)
    requires run.Valid() && k < 15
    ensures RpuAfter(r, run.headers[k], run.config) == if PowersUp(run, k) then RpuPowered(r, CpuAt(run, k)) else r
    ensures PowersUp(run, k) ==> IsR5(CpuAt(run, k))
  {
    hide HeaderStatus, Copied, Destination, RpuPowered;
  }

  /** Loading takes exactly the cores out of reset that it has a TCM image for, and halts them: also a core that
      was running. */
  lemma {:induction false} LoadedR5(run: Run, r: Rpu, m: nat, second: bool)
    requires run.Valid() && 1 <= m <= 15
    ensures HeldBit(run.RpuBelow(r, m), second) == if PoweredBelow(run, m, second) then 0 else HeldBit(r, second)
    ensures HaltBit(run.RpuBelow(r, m), second) == if PoweredBelow(run, m, second) then 0 else HaltBit(r, second)
  {
    hide RpuAfter, RpuPowered, PowersUp, CpuAt, HeldBit, HaltBit, Covers, IsR5;
    if m > 1 {
      LoadedR5(run, r, m - 1, second);
      RpuStep(run, run.RpuBelow(r, m - 1), m - 1);
      if PowersUp(run, m - 1) {
        PoweredBits(run.RpuBelow(r, m - 1), CpuAt(run, m - 1), second);
      }
    }
  }

  // So it starts no core.
  lemma LoadingStartsNoR5(run: Run, r: Rpu, m: nat, second: bool)
    requires run.Valid() && 1 <= m <= 15
    ensures Runs(run.RpuBelow(r, m), second) <==> Runs(r, second) && !PoweredBelow(run, m, second)
  {
    hide PoweredBelow, HeldBit, HaltBit, Run.RpuBelow;
    LoadedR5(run, r, m, second);
  }

  // The core of the last such image.
  function LastPowered(run: Run, m: nat): Cpu
    requires run.Valid() && m <= 15
  {
    if m <= 1 then CPU_NONE else if PowersUp(run, m - 1) then CpuAt(run, m - 1) else LastPowered(run, m - 1)
  }

  /** The pair is split or combined as the last of them wants it. */
  lemma {:induction false} LoadedMode(run: Run, r: Rpu, m: nat)
    requires run.Valid() && 1 <= m <= 15
    ensures PairMode(run.RpuBelow(r, m)) ==
      if LastPowered(run, m) == CPU_NONE then PairMode(r) else ModeFor(LastPowered(run, m))
  {
    hide RpuAfter, RpuPowered, PowersUp, CpuAt, PairMode, ModeFor;
    if m > 1 {
      LoadedMode(run, r, m - 1);
      RpuStep(run, run.RpuBelow(r, m - 1), m - 1);
      if PowersUp(run, m - 1) {
        PoweredBits(run.RpuBelow(r, m - 1), CpuAt(run, m - 1), false);
      }
    }
  }

  /** At the end of a run that leaves for good an R5 core is out of reset and of halt exactly if a partition to
      be handed over names it or the pair, or it was and no TCM image for it was loaded. */
  lemma R5Registers(run: Run, n: nat, before: Cores, after: Cores, x: Exit, second: bool)
    requires run.Valid() && 1 <= n <= 15 && run.AllGoBelow(n)
    requires LoopResult(run.CoresBelow(before, n), after, x, run.TableBelow(n), run.config.running, run.a53Exec)
    requires !x.Returned?
    ensures var starts := HandsOver(run, n, if second then R5_1 else R5_0) || HandsOver(run, n, R5_L);
      var powered := PoweredBelow(run, n, second);
      && HeldBit(after.rpu, second) == (if starts || powered then 0 else HeldBit(before.rpu, second))
      && HaltBit(after.rpu, second) == (if starts then 1 else if powered then 0 else HaltBit(before.rpu, second))
  {
    hide HandsOver, PoweredBelow, Run.Goes, Run.TableBelow, Run.RpuBelow, HandedAll, HeldBit, HaltBit, Starts;
    StartsIfListed(run, n, second);
    LoadedR5(run, before.rpu, n, second);
    RpuRegisters(run.CoresBelow(before, n), run.TableBelow(n), run.config.running, second);
  }

  /** On the A53 after a system reset an R5 core executes at the end exactly if a partition to be handed over
      names it or the pair. */
  lemma R5RunsIff(run: Run, n: nat, before: Cores, r: Rpu, after: Cores, x: Exit, second: bool)
    requires run.Valid() && 1 <= n <= 15 && run.AllGoBelow(n) && before.rpu == RpuAtBoot(r, A53_0, true)
    requires LoopResult(run.CoresBelow(before, n), after, x, run.TableBelow(n), run.config.running, run.a53Exec)
    requires !x.Returned?
    ensures Runs(after.rpu, second) <==> HandsOver(run, n, if second then R5_1 else R5_0) || HandsOver(run, n, R5_L)
  {
    hide HandsOver, PoweredBelow, Run.Goes, Run.TableBelow, Run.CoresBelow, LoopResult, RpuAtBoot, HeldBit, HaltBit;
    R5Registers(run, n, before, after, x, second);
    HeldAtBoot(r, second);
  }

  /** A run that does not come to the loop over the table starts no R5: the cores that execute are those that
      did, less the ones it loaded TCM images for. */
  lemma NoLoopStartsNoR5(run: Run, attempts: seq<nat>, p: Progress, end: End, before: Cores, after: Cores,
                         table: seq<HandoffEntry>, second: bool)
    requires run.Valid() && |attempts| <= 14 && Ended(run, |attempts| + 1, before, after, p, end, table)
    requires p == Reached ==> !run.platform.Ready() || !run.platform.protected || run.platform.jtag
    ensures Runs(after.rpu, second) <==> Runs(before.rpu, second) && !PoweredBelow(run, |attempts| + 1, second)
    ensures after.apu == before.apu && after.log == before.log
  {
    hide PoweredBelow, Runs, Run.RpuBelow, LoopResult;
    LoadingStartsNoR5(run, before.rpu, |attempts| + 1, second);
  }

  lemma PmuKeepsRpu(r: Rpu, e: HandoffEntry)
    requires e.Cpu() == PMU
    ensures RpuHanded(r, e) == r
  {
  }

  /** A loop that stops has started exactly the cores of the entries before the one that stops it. */
  lemma StoppedLoopR5(run: Run, n: nat, before: Cores, after: Cores, x: Exit, second: bool) returns (k: nat)
    requires run.Valid() && 1 <= n <= 15
    requires LoopResult(run.CoresBelow(before, n), after, x, run.TableBelow(n), run.config.running, run.a53Exec)
    requires !AllGo(run.TableBelow(n), run.config.running, run.a53Exec)
    ensures Stops(run.TableBelow(n), run.config.running, run.a53Exec, k)
    ensures x == Returned(EntryStatus(run.TableBelow(n)[k], run.config.running, run.a53Exec))
    ensures Runs(after.rpu, second) <==>
      || Starts(run.TableBelow(n)[..k], run.config.running, second)
      || (Runs(before.rpu, second) && !PoweredBelow(run, n, second))
  {
    hide PoweredBelow, HeldBit, HaltBit, Run.RpuBelow, Run.TableBelow, AllGo, EntryStatus, HandedAll, Starts, RpuHanded,
         ApuHanded, EventsOf, HandoffEntry.Cpu;
    var c, table, running := run.CoresBelow(before, n), run.TableBelow(n), run.config.running;
    k :| Stops(table, running, run.a53Exec, k) && x == Returned(EntryStatus(table[k], running, run.a53Exec))
         && after == StoppedAt(c, table, running, k);
    RpuRegisters(c, table[..k], running, second);
    LoadedR5(run, before.rpu, n, second);
    if table[k].Cpu() == PMU {
      PmuKeepsRpu(HandedAll(c, table[..k], running).rpu, table[k]);
    }
  }

  lemma DifferentStates()
    ensures AA32 != AA64
  {
  }

  /** Only vouched-for partitions start a core. */

  // The header was accepted, and every step that it calls for was answered with success.
  predicate VouchedFor(run: Run, k: nat)
    requires run.Valid() && k < 15
  {
    var h, c, d := run.headers[k], run.config, run.drivers[k];
    HeaderStatus(h, c) == 0 && StepsSucceed(h, c, d) && (StaysInFlash(h) || d.copy == 0)
  }

  lemma EntryIsVouchedFor(run: Run, n: nat, k: nat) returns (f: nat)
    requires run.Valid() && 1 <= n <= 15 && run.AllGoBelow(n) && k < |run.TableBelow(n)|
    ensures FirstFor(run, run.TableBelow(n)[k].Cpu(), n) == Some(f) && f < n && VouchedFor(run, f)
  {
    hide CpuAt, EntryOf, HandoffEntry.Cpu, Run.TableBelow, LoadStatus, HeaderStatus, StepsSucceed, StaysInFlash, FitsTcm;
    f := EntryComesFrom(run, n, k);
    assert run.Goes(f);
    LoadsIff(run.headers[f], run.config, run.drivers[f]);
    SkippedIff(run.headers[f], run.config, run.drivers[f]);
  }

  lemma ReleasedIsListed(table: seq<HandoffEntry>, running: Cpu, cpu: Cpu)
    requires Distinct(table) && (IsA53(cpu) || IsR5(cpu)) && Release(cpu) in LogOf(table, running)
    ensures Has(table, cpu) && cpu != running
  {
    hide Distinct, LogOf, IsA53, IsR5;
    ReleasedOnce(table, running, cpu);
    assert multiset(LogOf(table, running))[Release(cpu)] > 0;
  }

  lemma PmuReleasesNothing(e: HandoffEntry, cpu: Cpu)
    requires e.Cpu() == PMU && (IsA53(cpu) || IsR5(cpu))
    ensures Release(cpu) !in EventsOf(e)
  {
  }

  lemma StoppedLog(c: Cores, table: seq<HandoffEntry>, running: Cpu, k: nat, cpu: Cpu)
    requires k < |table| && c.log == [] && (IsA53(cpu) || IsR5(cpu))
    requires Release(cpu) in StoppedAt(c, table, running, k).log
    ensures Release(cpu) in LogOf(table[..k], running)
  {
    hide EventsOf, LogOf, HandedAll, HandoffEntry.Cpu, IsA53, IsR5;
    LogOfPass(c, table[..k], running);
    assert c.log + LogOf(table[..k], running) == LogOf(table[..k], running);
    if table[k].Cpu() == PMU {
      PmuReleasesNothing(table[k], cpu);
    }
  }

  lemma DistinctPrefix(table: seq<HandoffEntry>, k: nat, cpu: Cpu)
    requires Distinct(table) && k <= |table|
    ensures Distinct(table[..k]) && (Has(table[..k], cpu) ==> Has(table, cpu))
  {
    hide HandoffEntry.Cpu;
    assert forall i :: 0 <= i < k ==> table[..k][i] == table[i];
  }

  /** However the loop over the table ends: a core that was released, and the running one that leaves, were started
      with a partition that is vouched for. */
  lemma StartedIsVouchedFor(run: Run, n: nat, before: Cores, after: Cores, x: Exit, cpu: Cpu)
    requires run.Valid() && 1 <= n <= 15 && run.AllGoBelow(n) && before.log == [] && (IsA53(cpu) || IsR5(cpu))
    requires LoopResult(run.CoresBelow(before, n), after, x, run.TableBelow(n), run.config.running, run.a53Exec)
    requires Release(cpu) in after.log || (x.Jump? && cpu == run.config.running)
    ensures var f := FirstFor(run, cpu, n); f.Some? && VouchedFor(run, f.value)
  {
    hide VouchedFor, Run.Goes, Run.TableBelow, Run.RpuBelow, HandedAll, LogOf, AllGo, EntryStatus, StoppedAt, Distinct, Has,
         HandoffEntry.Cpu, IsA53, IsR5;
    var c, table, running := run.CoresBelow(before, n), run.TableBelow(n), run.config.running;
    TableIsDistinct(run, n);
    if Release(cpu) in after.log {
      if AllGo(table, running, run.a53Exec) {
        LogOfPass(c, table, running);
        assert c.log + LogOf(table, running) == LogOf(table, running);
        ReleasedIsListed(table, running, cpu);
      } else {
        var k: nat :| Stops(table, running, run.a53Exec, k) && after == StoppedAt(c, table, running, k);
        StoppedLog(c, table, running, k, cpu);
        DistinctPrefix(table, k, cpu);
        ReleasedIsListed(table[..k], running, cpu);
      }
    } else if !Has(table, running) {
      NoOwnEntry(table, running);
    }
    var i := EntryAt(table, cpu);
    var f := EntryIsVouchedFor(run, n, i);
  }

  lemma EntryAt(table: seq<HandoffEntry>, cpu: Cpu) returns (i: nat)
    requires Has(table, cpu)
    ensures i < |table| && table[i].Cpu() == cpu
  {
    i :| 0 <= i < |table| && table[i].Cpu() == cpu;
  }

  /** The composition over a run from a boot device that leaves for good: it attempted every partition, each
      core is started as the first partition for it says, and the loader's own core leaves for its own. */
  lemma WholeRun(run: Run, attempts: seq<nat>, before: Cores, after: Cores, x: Exit, cpu: Cpu)
    requires run.Valid() && run.Starts() && LoadsResult(run, attempts, Reached) && before.log == []
    requires !run.platform.jtag
    requires Ended(run, |attempts| + 1, before, after, Reached, Left(x), run.TableBelow(|attempts| + 1))
    requires IsA53(cpu) || IsR5(cpu)
    ensures 1 <= run.partitions == |attempts| + 1 && run.AllGoBelow(run.partitions)
    ensures LoopResult(run.CoresBelow(before, run.partitions), after, x, run.TableBelow(run.partitions),
                       run.config.running, run.a53Exec) && !x.Returned?
    ensures var f := FirstFor(run, cpu, run.partitions);
      && Startable(run, run.partitions)
      && if cpu != run.config.running then
           && Count(after.log, Release(cpu)) == (if f.Some? then 1 else 0)
           && (f.Some? ==> StartedWith(after.log, EntryOf(run, f.value)))
           && if f.Some? then ToldFirst(after.log, cpu, ToldBy(run.headers[f.value], cpu)) else Untold(after.log, cpu)
         else if f.Some? then
           x == Jump(run.headers[f.value].ExecutionAddress(), run.headers[f.value].Attributes() & 0x8 != 0)
         else x == Wait
  {
    hide For, ForHandoff, EntryOf, StartableCpu, LoopResult, Run.Goes, Run.TableBelow, Run.RpuBelow, Count, StartedWith,
         IsA53, IsR5, EntryStatus, ToldFirst, Untold, ToldBy, KeepsState;
    var n := |attempts| + 1;
    LoopLeft(run.CoresBelow(before, n), after, x, run.TableBelow(n), run.config.running, run.a53Exec);
    LoopGoesIff(run, n);
    if cpu != run.config.running {
      OtherCoresEndToEnd(run, n, before, after, x, cpu);
    } else {
      RunningCoreEndToEnd(run, n, before, after, x);
    }
  }

  /** What a run from a device works on: the image of the device that stage 2 ends with, its partitions the
      nodes of the chain there. */
  lemma RunHeaders(inputs: Inputs)
    requires inputs.Valid() && RunOf(inputs).Starts()
    ensures Find(inputs.primary, inputs.secondary).Image?
    ensures var run, s := RunOf(inputs), Find(inputs.primary, inputs.secondary).source;
      && run.partitions == s.Partitions() && TableReadable(s.flash, s.image)
      && forall k :: 0 <= k < run.partitions ==> run.headers[k] == Node(s.flash, s.image, k)
  {
    hide Find, Stored, TableReadable, Node, Table;
    FoundRefusal(inputs.primary, inputs.secondary);
    FoundImage(inputs.primary, inputs.secondary, NoHeaders());
  }

  // Success is not a reason to refuse.
  lemma FoundRefusal(primary: Source, secondary: Source)
    ensures Find(primary, secondary) != Refused(0)
  {
    hide ReadStatus, Overruns, Table;
  }

  /** From the image on the device to the cores. */
  lemma ImageToCores(inputs: Inputs, attempts: seq<nat>, before: Cores, after: Cores, x: Exit, cpu: Cpu)
    requires inputs.Valid() && RunOf(inputs).Starts() && LoadsResult(RunOf(inputs), attempts, Reached)
    requires before.log == [] && !inputs.platform.jtag
    requires var run := RunOf(inputs);
      Ended(run, |attempts| + 1, before, after, Reached, Left(x), run.TableBelow(|attempts| + 1))
    requires IsA53(cpu) || IsR5(cpu)
    ensures Find(inputs.primary, inputs.secondary).Image?
    ensures var run, s := RunOf(inputs), Find(inputs.primary, inputs.secondary).source;
      var f := FirstFor(run, cpu, run.partitions);
      && run.partitions == s.Partitions() == |attempts| + 1
      && if f.None? then
           if cpu == run.config.running then x == Wait
           else Count(after.log, Release(cpu)) == 0 && Untold(after.log, cpu)
         else
           var h := Node(s.flash, s.image, f.value);
           && run.headers[f.value] == h
           && if cpu == run.config.running then x == Jump(h.ExecutionAddress(), h.Attributes() & 0x8 != 0)
              else && Count(after.log, Release(cpu)) == 1 && StartedWith(after.log, EntryFor(h, run.config.running))
                   && ToldFirst(after.log, cpu, ToldBy(h, cpu))
  {
    hide For, ForHandoff, RunOf, Find, LoadsResult, Ended, LoopResult, Node, Count, StartedWith, Startable, IsA53, IsR5,
         ToldFirst, Untold, ToldBy, EntryFor, Run.Starts, Run.Goes, Run.AllGoBelow, Run.TableBelow, Run.CoresBelow;
    RunHeaders(inputs);
    WholeRun(RunOf(inputs), attempts, before, after, x, cpu);
  }

  lemma LoopLeft(before: Cores, after: Cores, x: Exit, table: seq<HandoffEntry>, running: Cpu, a53Exec: bv32)
    ensures LoopResult(before, after, x, table, running, a53Exec) && !x.Returned? ==> AllGo(table, running, a53Exec)
  {
  }

  lemma StateBit(attributes: bv32)
    ensures ExecState(attributes) == AA32 <==> attributes & 0x8 != 0
    ensures ExecState(attributes) == AA64 <==> attributes & 0x8 == 0
  {
  }

  lemma EntryFields(run: Run, k: nat)
    requires run.Valid() && k < 15
    ensures Address(EntryOf(run, k)) == run.headers[k].ExecutionAddress()
    ensures EntryOf(run, k).Exec() == ExecState(run.headers[k].Attributes())
  {
  }

  lemma {:induction false} ExitIsOwnEntry(table: seq<HandoffEntry>, running: Cpu, k: nat)
    requires Distinct(table) && k < |table| && table[k].Cpu() == running
    ensures ExitOf(table, running) == Jump(Address(table[k]), table[k].Exec() == AA32)
  {
    hide HandoffEntry.Cpu, HandoffEntry.Exec, Address;
    var n := |table| - 1;
    if k < n {
      assert table[k].Cpu() != table[n].Cpu();
      ExitIsOwnEntry(table[..n], running, k);
    }
  }

  lemma {:induction false} NoOwnEntry(table: seq<HandoffEntry>, running: Cpu)
    requires !Has(table, running)
    ensures ExitOf(table, running) == Wait
  {
    if table != [] {
      var n := |table| - 1;
      assert table[n].Cpu() != running;
      assert forall i :: 0 <= i < n ==> table[..n][i] == table[i];
      NoOwnEntry(table[..n], running);
    }
  }

  /** What a run does to memory. */

  // The images that partitions 1 .. m-1 copy.
  function Images(run: Run, m: nat): seq<Image>
    requires run.Valid() && m <= 15
  {
    if m <= 1 then [] else
      var h := run.headers[m - 1];
      Images(run, m - 1)
      + if HeaderStatus(h, run.config) == SUCCESS && Copied(h, run.config) then [ImageOf(h, run.config)] else []
  }

  function Copies(images: seq<Image>): (s: seq<Op>)
    ensures |s| == |images| && forall i :: 0 <= i < |s| ==> s[i] == Copy(images[i])
  {
    seq(|images|, i requires 0 <= i < |images| => Copy(images[i]))
  }

  lemma CopiesAppend(images: seq<Image>, x: Image)
    ensures Copies(images + [x]) == Copies(images) + [Copy(x)]
  {
  }

  /** After a system reset of the A53 (or of the R5s in lock step), loading only ever adds copies to the
      banks that were filled at boot. */
  lemma {:induction false} LoadingOnlyCopies(run: Run, m: nat)
    requires run.Valid() && 1 <= m <= 15
    requires run.config.running == A53_0 || run.config.running == R5_L
    ensures var b := AtBoot(run.config.running, true);
      run.BanksBelow(b, m) == Banks(3, b.ops + Copies(Images(run, m)))
  {
    var b := AtBoot(run.config.running, true);
    if m == 1 {
      assert b.ops + [] == b.ops;
    } else {
      hide HeaderStatus, Copied, ImageOf, FillsFor, IsTcmDestination;
      LoadingOnlyCopies(run, m - 1);
      var images, h := Images(run, m - 1), run.headers[m - 1];
      if HeaderStatus(h, run.config) == SUCCESS && Copied(h, run.config) {
        CopiesAppend(images, ImageOf(h, run.config));
        assert b.ops + (Copies(images) + [Copy(ImageOf(h, run.config))]) == (b.ops + Copies(images)) + [Copy(ImageOf(h, run.config))];
      } else {
        assert images + [] == images;
      }
    }
  }

  lemma {:induction false} BeforePrefix(b: Banks, images: seq<Image>, x: Image, running: Cpu, j: nat)
    requires j <= |images|
    ensures Before(b, images + [x], running, j) == Before(b, images, running, j)
  {
    if j > 0 {
      BeforePrefix(b, images, x, running, j - 1);
    }
  }

  lemma BeforeAppend(b: Banks, images: seq<Image>, x: Image, running: Cpu)
    ensures Before(b, images + [x], running, |images| + 1) == Loaded(Before(b, images, running, |images|), x, running)
  {
    hide Tcm.Loaded;
    BeforePrefix(b, images, x, running, |images|);
  }

  lemma ImagesStep(run: Run, n: nat)
    requires run.Valid() && 1 < n <= 15
    ensures var h, c := run.headers[n - 1], run.config;
      Images(run, n) == if HeaderStatus(h, c) == SUCCESS && Copied(h, c) then Images(run, n - 1) + [ImageOf(h, c)]
                        else Images(run, n - 1)
  {
    hide HeaderStatus, Copied, ImageOf;
    assert Images(run, n - 1) + [] == Images(run, n - 1);
  }

  lemma BanksStep(run: Run, b: Banks, n: nat)
    requires run.Valid() && 1 < n <= 15
    ensures var h, c, was := run.headers[n - 1], run.config, run.BanksBelow(b, n - 1);
      run.BanksBelow(b, n) ==
      if HeaderStatus(h, c) == SUCCESS && Copied(h, c) then Loaded(was, ImageOf(h, c), c.running) else was
  {
    hide HeaderStatus, Copied, ImageOf, Tcm.Loaded;
  }

  /** Any run leaves the banks as its images do, one after the other. */
  lemma {:induction false} BanksFollowImages(run: Run, b: Banks, n: nat)
    requires run.Valid() && 1 <= n <= 15
    ensures run.BanksBelow(b, n) == Before(b, Images(run, n), run.config.running, |Images(run, n)|)
  {
    if n > 1 {
      hide HeaderStatus, Copied, ImageOf, Tcm.Loaded, Tcm.Before;
      BanksFollowImages(run, b, n - 1);
      BanksStep(run, b, n);
      ImagesStep(run, n);
      hide Run.BanksBelow, Images;
      var images, h := Images(run, n - 1), run.headers[n - 1];
      if HeaderStatus(h, run.config) == SUCCESS && Copied(h, run.config) {
        BeforeAppend(b, images, ImageOf(h, run.config), run.config.running);
      }
    }
  }

  lemma ImageFits(h: PartitionHeader, c: Config)
    requires HeaderStatus(h, c) == SUCCESS && Copied(h, c)
    requires ImageOf(h, c).InBanks() && ImageOf(h, c).cpu != R5_L
    ensures ImageOf(h, c).OfSplitCore()
  {
    hide Checksummed, OwnedByFsbl, Signed, Encrypted, Times4, PartitionHeader.ResolvedCpu;
  }

  lemma {:induction false} ImagesFit(run: Run, n: nat, i: nat)
    requires run.Valid() && n <= 15 && i < |Images(run, n)|
    requires Images(run, n)[i].InBanks() && Images(run, n)[i].cpu != R5_L
    ensures Images(run, n)[i].OfSplitCore()
  {
    hide HeaderStatus, Copied, ImageOf, Image.InBanks, Image.OfSplitCore;
    if i < |Images(run, n - 1)| {
      ImagesFit(run, n - 1, i);
    } else {
      ImageFits(run.headers[n - 1], run.config);
    }
  }

  /** In every other run than those, an image of a split core is wiped exactly when a later one retakes its
      banks. */
  lemma RunWipesIff(run: Run, systemReset: bool, n: nat, i: nat)
    requires run.Valid() && n <= 15 && (systemReset ==> run.config.running == R5_0)
    requires i < |Images(run, n)| && Images(run, n)[i].InBanks() && Images(run, n)[i].cpu != R5_L
    ensures var images, running := Images(run, n), run.config.running;
      Wiped(AtBoot(running, systemReset), images, running, i) <==>
      Exposed(images[i], running) && exists j :: i < j < |images| && Retakes(images, i, j)
  {
    hide Images, Image.InBanks, Image.OfSplitCore, Exposed, Wiped, Retakes;
    ImagesFit(run, n, i);
    WipedIff(AtBoot(run.config.running, systemReset), Images(run, n), run.config.running, i);
  }
}
