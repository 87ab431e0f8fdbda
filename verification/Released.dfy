// What a whole pass over the handoff table leaves in the reset, configuration and vector registers,
// and in which order the cores were handled.
module Released {
  import opened Bytes
  import opened Power
  import opened Tcm
  import opened Loader
  import opened Handoff

  /** Order: every core but the running one gets its vector and is then released, once. */

  function LogOf(table: seq<HandoffEntry>, running: Cpu): seq<Event> {
    if table == [] then []
    else
      var e := table[|table| - 1];
      LogOf(table[..|table| - 1], running) + if e.Cpu() == running then [] else EventsOf(e)
  }

  lemma {:induction false} LogOfPass(c: Cores, table: seq<HandoffEntry>, running: Cpu)
    ensures HandedAll(c, table, running).log == c.log + LogOf(table, running)
  {
    hide EventsOf, ApuHanded, RpuHanded;
    if table != [] {
      LogOfPass(c, table[..|table| - 1], running);
    }
  }

  function Count(log: seq<Event>, x: Event): nat {
    multiset(log)[x]
  }

  lemma CountAppend(a: seq<Event>, b: seq<Event>, x: Event)
    ensures Count(a + b, x) == Count(a, x) + Count(b, x)
  {
  }

  lemma EventsRelease(e: HandoffEntry, cpu: Cpu)
    requires IsA53(cpu) || IsR5(cpu)
    ensures Count(EventsOf(e), Release(cpu)) == if e.Cpu() == cpu then 1 else 0
  {
  }

  lemma LogGrows(front: seq<HandoffEntry>, e: HandoffEntry, running: Cpu)
    ensures LogOf(front + [e], running) == if e.Cpu() == running then LogOf(front, running) else LogOf(front, running) + EventsOf(e)
  {
  }

  lemma NothingReleased(running: Cpu, cpu: Cpu)
    ensures Count(LogOf([], running), Release(cpu)) == 0 && !Has([], cpu)
  {
  }

  lemma LastIsNew(front: seq<HandoffEntry>, e: HandoffEntry)
    requires Distinct(front + [e])
    ensures !Has(front, e.Cpu())
  {
    var t := front + [e];
    assert t[|front|] == e;
    assert forall k :: 0 <= k < |front| ==> t[k] == front[k];
  }

  /** A core is released once if the table has it, and never otherwise. */
  lemma {:induction false} ReleasedOnce(table: seq<HandoffEntry>, running: Cpu, cpu: Cpu)
    requires Distinct(table) && (IsA53(cpu) || IsR5(cpu))
    ensures Count(LogOf(table, running), Release(cpu)) == if cpu != running && Has(table, cpu) then 1 else 0
  {
    hide EventsOf, Count, LogOf, HandoffEntry.Cpu, IsA53, IsR5, Has;
    if table == [] {
      NothingReleased(running, cpu);
    } else {
      var n := |table| - 1;
      var front, e := table[..n], table[n];
      assert table == front + [e];
      ReleasedOnce(front, running, cpu);
      EventsRelease(e, cpu);
      HasAppend(front, e, cpu);
      LastIsNew(front, e);
      LogGrows(front, e, running);
      CountAppend(LogOf(front, running), EventsOf(e), Release(cpu));
    }
  }

  // The log has the events of the entry at p.
  ghost predicate EventsAt(log: seq<Event>, p: nat, e: HandoffEntry) {
    p + |EventsOf(e)| <= |log| && log[p..p + |EventsOf(e)|] == EventsOf(e)
  }

  /** The events of an entry stand together, behind those of the entries before it: its vector first,
      its release last. */
  lemma {:induction false} VectorThenRelease(table: seq<HandoffEntry>, running: Cpu, k: nat)
    requires k < |table| && table[k].Cpu() != running
    ensures EventsAt(LogOf(table, running), |LogOf(table[..k], running)|, table[k])
    ensures LogOf(table[..k], running) <= LogOf(table, running)
  {
    hide EventsOf, HandoffEntry.Cpu;
    var n := |table| - 1;
    if k < n {
      assert table[..n][..k] == table[..k];
      VectorThenRelease(table[..n], running, k);
    }
  }

  /** What a core is told, and that it is told before it is released. */

  // The event prepares the core: its vectors, or its reset address.
  predicate Prepares(x: Event, cpu: Cpu) {
    match x
    case SelectVectors(c, _) => c == cpu
    case SetRvbar(c, _) => c == cpu
    case CopyVectors(c, _, _) => c == cpu
    case NullWrite(_) => false
    case Release(_) => false
  }

  // What a core is told of an entry with the given settings, attributes and address: an R5 which vectors to use,
  // and a copy of them from the image; an A53 its reset address in 64-bit state, else which vectors to use.
  function Instructions(cpu: Cpu, settings: bv32, attributes: bv32, address: u32): seq<Event> {
    var high := attributes & 0x80_0000 != 0;
    if cpu == R5_0 || cpu == R5_1 || cpu == R5_L then
      var bank: u64 := if cpu == R5_1 then 0xFFE2_0000 else 0xFFE0_0000;
      [SelectVectors(cpu, high),
       if high then CopyVectors(cpu, 0xFFFF_0000, address)
       else CopyVectors(cpu, bank, if address < 0x4_0000 then bank + address else address)]
    else if settings & 0x8 != 0 then [SelectVectors(cpu, high)]
    else [SetRvbar(cpu, address)]
  }

  // Each instruction stands before a release of the core, and nothing else that prepares it stands anywhere.
  ghost predicate ToldFirst(log: seq<Event>, cpu: Cpu, told: seq<Event>) {
    && (forall i, j :: 0 <= i < |log| && 0 <= j < |log| && log[i] == Release(cpu) && Prepares(log[j], cpu) ==> j < i)
    && (forall j :: 0 <= j < |log| && Prepares(log[j], cpu) ==> log[j] in told)
    && forall t :: 0 <= t < |told| ==> told[t] in log
  }

  ghost predicate Untold(log: seq<Event>, cpu: Cpu) {
    forall i :: 0 <= i < |log| ==> log[i] != Release(cpu) && !Prepares(log[i], cpu)
  }

  lemma EventsTold(e: HandoffEntry, cpu: Cpu)
    requires IsA53(cpu) || IsR5(cpu)
    ensures if e.Cpu() == cpu then ToldFirst(EventsOf(e), cpu, Instructions(cpu, e.cpuSettings, e.attributes, e.address))
            else Untold(EventsOf(e), cpu)
  {
    hide HandoffEntry.Cpu;
    ExecBit(e);
  }

  lemma ExecBit(e: HandoffEntry)
    ensures e.Exec() == AA32 <==> e.cpuSettings & 0x8 != 0
    ensures e.Exec() == AA64 <==> e.cpuSettings & 0x8 == 0
  {
  }

  lemma UntoldAppend(a: seq<Event>, b: seq<Event>, cpu: Cpu)
    requires Untold(a, cpu) && Untold(b, cpu)
    ensures Untold(a + b, cpu)
  {
  }

  lemma ToldAppend(a: seq<Event>, b: seq<Event>, cpu: Cpu, told: seq<Event>)
    ensures ToldFirst(a, cpu, told) && Untold(b, cpu) ==> ToldFirst(a + b, cpu, told)
    ensures Untold(a, cpu) && ToldFirst(b, cpu, told) ==> ToldFirst(a + b, cpu, told)
  {
    hide Prepares;
    if ToldFirst(a, cpu, told) && Untold(b, cpu) {
      assert forall t :: 0 <= t < |told| ==> told[t] in a;
    }
    if Untold(a, cpu) && ToldFirst(b, cpu, told) {
      assert forall t :: 0 <= t < |told| ==> told[t] in b;
    }
  }

  lemma {:induction false} NobodyTold(table: seq<HandoffEntry>, running: Cpu, cpu: Cpu)
    requires (IsA53(cpu) || IsR5(cpu)) && (cpu == running || !Has(table, cpu))
    ensures Untold(LogOf(table, running), cpu)
  {
    hide Untold, EventsOf, Instructions, HandoffEntry.Cpu, HandoffEntry.Exec, IsA53, IsR5;
    if table == [] {
      EmptyLog(running, cpu);
    } else {
      var n := |table| - 1;
      var front, e := table[..n], table[n];
      assert table == front + [e];
      HasAppend(front, e, cpu);
      NobodyTold(front, running, cpu);
      LogGrows(front, e, running);
      if e.Cpu() != running {
        EventsTold(e, cpu);
        UntoldAppend(LogOf(front, running), EventsOf(e), cpu);
      }
    }
  }

  lemma EmptyLog(running: Cpu, cpu: Cpu)
    ensures Untold(LogOf([], running), cpu)
  {
  }

  /** Over any pass each core of the table is told, before it is released, exactly what its entry says. */
  lemma {:induction false} ToldThenReleased(table: seq<HandoffEntry>, running: Cpu, k: nat)
    requires Distinct(table) && k < |table| && table[k].Cpu() != running
    requires IsA53(table[k].Cpu()) || IsR5(table[k].Cpu())
    ensures var cpu := table[k].Cpu();
      ToldFirst(LogOf(table, running), cpu, Instructions(cpu, table[k].cpuSettings, table[k].attributes, table[k].address))
  {
    hide ToldFirst, Untold, EventsOf, Instructions, HandoffEntry.Cpu, HandoffEntry.Exec, IsA53, IsR5;
    var n := |table| - 1;
    var front, e, cpu := table[..n], table[n], table[k].Cpu();
    assert table == front + [e];
    LogGrows(front, e, running);
    var told := Instructions(cpu, table[k].cpuSettings, table[k].attributes, table[k].address);
    ToldAppend(LogOf(front, running), EventsOf(e), cpu, told);
    if e.Cpu() != running {
      EventsTold(e, cpu);
    }
    if k < n {
      ToldThenReleased(front, running, k);
      assert table[k].Cpu() != table[n].Cpu();
    } else {
      LastIsNew(front, e);
      NobodyTold(front, running, cpu);
    }
  }

  // The write names the execution address, as it is or from the start of the TCM.
  predicate Names(x: Event, e: HandoffEntry) {
    || x == SetRvbar(e.Cpu(), Address(e))
    || (x.CopyVectors? && x.cpu == e.Cpu() && (x.from == Address(e) || x.from == x.to + Address(e)))
  }

  /** A released core is told its execution address exactly if it is an R5 or starts in 64-bit state. */
  lemma AddressToldIff(e: HandoffEntry)
    requires IsA53(e.Cpu()) || IsR5(e.Cpu())
    ensures (exists x :: x in EventsOf(e) && Names(x, e)) <==> IsR5(e.Cpu()) || e.Exec() == AA64
  {
    ExecIsOneBit(e.cpuSettings);
    var s := EventsOf(e);
    if IsR5(e.Cpu()) {
      assert s[1] in s && Names(s[1], e);
    } else if e.Exec() == AA64 {
      assert s[0] in s && Names(s[0], e);
    }
  }

  /** A53 registers. */

  predicate ReleasesA53(table: seq<HandoffEntry>, running: Cpu, j: Core) {
    exists k :: 0 <= k < |table| && Releases(table[k], running, j)
  }

  predicate Releases(e: HandoffEntry, running: Cpu, j: Core) {
    e.Cpu() != running && IsA53(e.Cpu()) && CoreOf(e.Cpu()) == j
  }

  predicate ReleasesAs32(table: seq<HandoffEntry>, running: Cpu, j: Core) {
    exists k :: 0 <= k < |table| && Releases(table[k], running, j) && table[k].Exec() == AA32
  }

  lemma ReleasesAppend(front: seq<HandoffEntry>, e: HandoffEntry, running: Cpu, j: Core)
    ensures ReleasesA53(front + [e], running, j) <==> ReleasesA53(front, running, j) || Releases(e, running, j)
    ensures ReleasesAs32(front + [e], running, j)
       <==> ReleasesAs32(front, running, j) || (Releases(e, running, j) && e.Exec() == AA32)
  {
    hide Releases;
    var t := front + [e];
    assert t[|front|] == e;
    assert forall k :: 0 <= k < |front| ==> t[k] == front[k];
  }

  // The two reset bits of core i, and every bit that no release clears.
  function ResetBits(r: bv32, i: Core): bv32 { And(r, CoreBit(i) | PowerBit(i)) }
  function OtherBits(r: bv32): bv32 { And(r, 0xFFFF_C2F0) }
  function ModeBit(r: bv32, i: Core): bv32 { And(r, CoreBit(i)) }
  function VectorBit(r: bv32, i: Core): bv32 { And(r, HighVectorBit(i)) }
  function L2Bit(r: bv32): bv32 { And(r, 0x100) }

  /** The bits of each core, by its name in the header. */
  lemma BitsOfCore(r: bv32, cpu: Cpu)
    requires cpu == 0x100 || cpu == 0x200 || cpu == 0x300 || cpu == 0x400
    ensures var j := CoreOf(cpu);
      && IsA53(cpu) && j == (if cpu == 0x100 then 0 else if cpu == 0x200 then 1 else if cpu == 0x300 then 2 else 3)
      && ResetBits(r, j) == And(r, if j == 0 then 0x401 else if j == 1 then 0x802 else if j == 2 then 0x1004 else 0x2008)
      && ModeBit(r, j) == And(r, if j == 0 then 0x1 else if j == 1 then 0x2 else if j == 2 then 0x4 else 0x8)
      && VectorBit(r, j) == And(r, HighVectorBit(j))
      && HighVectorBit(j) == if j == 0 then 0x100 else if j == 1 then 0x200 else if j == 2 then 0x400 else 0x800
  {
    hide And;
  }

  function Opened(r: bv32, j: Core): bv32 { Off(r, CoreBit(j) | 0x100 | PowerBit(j)) }

  // No two cores share a bit.
  lemma CoresApart(j: Core, i: Core)
    ensures And(CoreBit(j), CoreBit(i)) == if i == j then CoreBit(i) else 0
    ensures And(CoreBit(j) | 0x100 | PowerBit(j), CoreBit(i) | PowerBit(i))
         == if i == j then CoreBit(i) | PowerBit(i) else 0
    ensures And(CoreBit(j) | 0x100 | PowerBit(j), 0xFFFF_C2F0) == 0
    ensures And(CoreBit(j) | 0x100 | PowerBit(j), 0x100) == 0x100
    ensures And(CoreBit(j), HighVectorBit(i)) == 0
  {
  }

  lemma OpenedFrame(r: bv32, j: Core, i: Core)
    ensures ResetBits(Opened(r, j), i) == if i == j then 0 else ResetBits(r, i)
    ensures OtherBits(Opened(r, j)) == OtherBits(r) && L2Bit(Opened(r, j)) == 0
  {
    hide CoreBit, PowerBit, HighVectorBit, Off, And;
    CoresApart(j, i);
    var clear, keep := CoreBit(j) | 0x100 | PowerBit(j), CoreBit(i) | PowerBit(i);
    if i == j {
      OffInside(r, clear, keep);
    } else {
      OffOutside(r, clear, keep);
    }
    OffOutside(r, clear, 0xFFFF_C2F0);
    OffInside(r, clear, 0x100);
  }

  lemma FieldSame(r: bv32, bit: bv32, high: bool)
    ensures And(Field(r, bit, high), bit) == if high then bit else 0
  {
  }

  lemma FieldOutside(r: bv32, bit: bv32, high: bool, keep: bv32)
    requires And(bit, keep) == 0
    ensures And(Field(r, bit, high), keep) == And(r, keep)
  {
  }

  lemma VectorBitsApart(j: Core, i: Core)
    ensures And(HighVectorBit(j), CoreBit(i)) == 0
    ensures i != j ==> And(HighVectorBit(j), HighVectorBit(i)) == 0
  {
  }

  lemma VectorFieldFrame(r: bv32, j: Core, i: Core, high: bool)
    ensures ModeBit(Field(r, HighVectorBit(j), high), i) == ModeBit(r, i)
    ensures VectorBit(Field(r, HighVectorBit(j), high), i)
         == if i != j then VectorBit(r, i) else if high then HighVectorBit(i) else 0
  {
    hide CoreBit, HighVectorBit, Field, And;
    VectorBitsApart(j, i);
    FieldOutside(r, HighVectorBit(j), high, CoreBit(i));
    if i == j {
      FieldSame(r, HighVectorBit(j), high);
    } else {
      FieldOutside(r, HighVectorBit(j), high, HighVectorBit(i));
    }
  }

  lemma ModeOffFrame(r: bv32, j: Core, i: Core)
    ensures ModeBit(Off(r, CoreBit(j)), i) == if i == j then 0 else ModeBit(r, i)
    ensures VectorBit(Off(r, CoreBit(j)), i) == VectorBit(r, i)
  {
    hide CoreBit, PowerBit, HighVectorBit, Off, And;
    CoresApart(j, i);
    OffOutside(r, CoreBit(j), HighVectorBit(i));
    if i == j {
      OffInside(r, CoreBit(j), CoreBit(i));
    } else {
      OffOutside(r, CoreBit(j), CoreBit(i));
    }
  }

  lemma ApuHandedReset(a: Apu, e: HandoffEntry, running: Cpu, i: Core)
    requires e.Cpu() != running
    ensures ResetBits(ApuHanded(a, e).reset, i) == if Releases(e, running, i) then 0 else ResetBits(a.reset, i)
    ensures OtherBits(ApuHanded(a, e).reset) == OtherBits(a.reset)
    ensures L2Bit(ApuHanded(a, e).reset) == if IsA53(e.Cpu()) then 0 else L2Bit(a.reset)
  {
    hide ResetBits, OtherBits, L2Bit, Off, On, Field, Low, High, CoreBit, PowerBit, HighVectorBit, HighVectors, Address, CoreOf;
    OpenedFrame(a.reset, CoreOf(e.Cpu()), i);
  }

  lemma ApuHandedConfig(a: Apu, e: HandoffEntry, running: Cpu, i: Core)
    requires e.Cpu() != running
    ensures ModeBit(ApuHanded(a, e).config, i)
         == if Releases(e, running, i) && e.Exec() == AA32 then 0 else ModeBit(a.config, i)
    ensures VectorBit(ApuHanded(a, e).config, i)
         == if !Releases(e, running, i) || e.Exec() != AA32 then VectorBit(a.config, i)
            else if HighVectors(e) then HighVectorBit(i) else 0
  {
    hide ModeBit, VectorBit, Off, On, Field, Low, High, CoreBit, PowerBit, HighVectorBit, HighVectors, Address, CoreOf;
    var j := CoreOf(e.Cpu());
    VectorFieldFrame(a.config, j, i, HighVectors(e));
    ModeOffFrame(Field(a.config, HighVectorBit(j), HighVectors(e)), j, i);
  }

  predicate ReleasesAny(table: seq<HandoffEntry>, running: Cpu) {
    exists k :: 0 <= k < |table| && table[k].Cpu() != running && IsA53(table[k].Cpu())
  }

  lemma ReleasesAnyAppend(front: seq<HandoffEntry>, e: HandoffEntry, running: Cpu)
    ensures ReleasesAny(front + [e], running) <==> ReleasesAny(front, running) || (e.Cpu() != running && IsA53(e.Cpu()))
  {
    hide IsA53, HandoffEntry.Cpu;
    var t := front + [e];
    assert t[|front|] == e;
    assert forall k :: 0 <= k < |front| ==> t[k] == front[k];
  }

  /** The reset bits of core i are clear exactly if it was released, or were clear; the L2 reset exactly if
      any core was; no other bit moves. */
  lemma {:induction false} ResetRegister(c: Cores, table: seq<HandoffEntry>, running: Cpu, i: Core)
    ensures var r := HandedAll(c, table, running).apu.reset;
      && ResetBits(r, i) == (if ReleasesA53(table, running, i) then 0 else ResetBits(c.apu.reset, i))
      && L2Bit(r) == (if ReleasesAny(table, running) then 0 else L2Bit(c.apu.reset))
      && OtherBits(r) == OtherBits(c.apu.reset)
  {
    hide ResetBits, OtherBits, L2Bit, IsA53, ApuHanded, RpuHanded, EventsOf, Releases;
    if table != [] {
      var n := |table| - 1;
      ResetRegister(c, table[..n], running, i);
      ReleasesAppend(table[..n], table[n], running, i);
      ReleasesAnyAppend(table[..n], table[n], running);
      assert table == table[..n] + [table[n]];
      if table[n].Cpu() != running {
        ApuHandedReset(HandedAll(c, table[..n], running).apu, table[n], running, i);
      } else {
        RunningIsNotReleased(table[n], running, i);
      }
    }
  }

  lemma RunningIsNotReleased(e: HandoffEntry, running: Cpu, i: Core)
    requires e.Cpu() == running
    ensures !Releases(e, running, i)
  {
  }

  /** The AA64N32 bit of core i is clear exactly if it was released in 32-bit state, or was clear. */
  lemma {:induction false} ConfigRegister(c: Cores, table: seq<HandoffEntry>, running: Cpu, i: Core)
    ensures ModeBit(HandedAll(c, table, running).apu.config, i)
         == if ReleasesAs32(table, running, i) then 0 else ModeBit(c.apu.config, i)
  {
    hide ModeBit, ApuHanded, RpuHanded, EventsOf, Releases;
    if table != [] {
      var n := |table| - 1;
      ConfigRegister(c, table[..n], running, i);
      ReleasesAppend(table[..n], table[n], running, i);
      assert table == table[..n] + [table[n]];
      if table[n].Cpu() != running {
        ApuHandedConfig(HandedAll(c, table[..n], running).apu, table[n], running, i);
      } else {
        RunningIsNotReleased(table[n], running, i);
      }
    }
  }

  /** After a pass over a table without repeated CPUs, the vector bit of a core released in 32-bit state is
      the one its partition asked for. */
  lemma {:induction false} VectorBitRegister(c: Cores, table: seq<HandoffEntry>, running: Cpu, k: nat)
    requires Distinct(table) && k < |table|
    requires table[k].Cpu() != running && IsA53(table[k].Cpu()) && table[k].Exec() == AA32
    ensures var i := CoreOf(table[k].Cpu());
      VectorBit(HandedAll(c, table, running).apu.config, i) == if HighVectors(table[k]) then HighVectorBit(i) else 0
  {
    hide VectorBit, HighVectors, HighVectorBit, ApuHanded, RpuHanded, EventsOf;
    var n := |table| - 1;
    var i := CoreOf(table[k].Cpu());
    if table[n].Cpu() != running {
      ApuHandedConfig(HandedAll(c, table[..n], running).apu, table[n], running, i);
    }
    if k < n {
      VectorBitRegister(c, table[..n], running, k);
      assert table[k].Cpu() != table[n].Cpu();
    }
  }

  /** The clock of the A53 cores runs exactly if any was released, or it did; no other bit moves. */
  lemma {:induction false} ClockRegister(c: Cores, table: seq<HandoffEntry>, running: Cpu)
    ensures HandedAll(c, table, running).apu.clock ==
      if ReleasesAny(table, running) then On(c.apu.clock, 0x0300_0000) else c.apu.clock
  {
    hide On, IsA53, EventsOf, RpuHanded, HandoffEntry.Cpu, HandoffEntry.Exec;
    if table != [] {
      var n := |table| - 1;
      ClockRegister(c, table[..n], running);
      ReleasesAnyAppend(table[..n], table[n], running);
      assert table == table[..n] + [table[n]];
      OnTwice(c.apu.clock, 0x0300_0000);
    }
  }

  lemma OnTwice(r: bv32, mask: bv32)
    ensures On(On(r, mask), mask) == On(r, mask)
  {
  }

  function Rvbar(a: Apu, j: Core): u64 {
    var low: int, high: int := a.rvbarLow[j], a.rvbarHigh[j];
    0x1_0000_0000 * high + low
  }

  lemma ApuHandedRvbar(a: Apu, e: HandoffEntry, running: Cpu, i: Core)
    requires e.Cpu() != running
    ensures Rvbar(ApuHanded(a, e), i)
         == if Releases(e, running, i) && e.Exec() == AA64 then Address(e) else Rvbar(a, i)
  {
  }

  /** After a pass over a table without repeated CPUs, the reset address of a released 64-bit core is its entry's. */
  lemma {:induction false} RvbarRegister(c: Cores, table: seq<HandoffEntry>, running: Cpu, k: nat)
    requires Distinct(table) && k < |table|
    requires table[k].Cpu() != running && IsA53(table[k].Cpu()) && table[k].Exec() == AA64
    ensures Rvbar(HandedAll(c, table, running).apu, CoreOf(table[k].Cpu())) == Address(table[k])
  {
    hide Rvbar, ApuHanded, RpuHanded, EventsOf, Address;
    var n := |table| - 1;
    var i := CoreOf(table[k].Cpu());
    if table[n].Cpu() != running {
      ApuHandedRvbar(HandedAll(c, table[..n], running).apu, table[n], running, i);
    }
    if k < n {
      RvbarRegister(c, table[..n], running, k);
      assert table[k].Cpu() != table[n].Cpu();
    }
  }

  predicate ReleasesAs64(table: seq<HandoffEntry>, running: Cpu, j: Core) {
    exists k :: 0 <= k < |table| && Releases(table[k], running, j) && table[k].Exec() == AA64
  }

  /** The reset address of a core that no entry starts in 64-bit state is not touched. */
  lemma {:induction false} RvbarUntouched(c: Cores, table: seq<HandoffEntry>, running: Cpu, i: Core)
    requires !ReleasesAs64(table, running, i)
    ensures Rvbar(HandedAll(c, table, running).apu, i) == Rvbar(c.apu, i)
  {
    hide Rvbar, ApuHanded, RpuHanded, EventsOf, Address, Releases, HandoffEntry.Exec;
    if table != [] {
      var n := |table| - 1;
      assert forall k :: 0 <= k < n ==> table[..n][k] == table[k];
      RvbarUntouched(c, table[..n], running, i);
      if table[n].Cpu() != running {
        ApuHandedRvbar(HandedAll(c, table[..n], running).apu, table[n], running, i);
      }
    }
  }

  /** So a core that is released in 32-bit state keeps the reset address it had. */
  lemma RvbarOf32BitCore(c: Cores, table: seq<HandoffEntry>, running: Cpu, k: nat)
    requires Distinct(table) && k < |table|
    requires table[k].Cpu() != running && IsA53(table[k].Cpu()) && table[k].Exec() == AA32
    ensures Rvbar(HandedAll(c, table, running).apu, CoreOf(table[k].Cpu())) == Rvbar(c.apu, CoreOf(table[k].Cpu()))
  {
    hide Rvbar, HandedAll;
    var i := CoreOf(table[k].Cpu());
    forall j | 0 <= j < |table| && Releases(table[j], running, i)
      ensures table[j].Exec() != AA64
    {
      SameCore(table[j].Cpu(), table[k].Cpu());
    }
    RvbarUntouched(c, table, running, i);
  }

  lemma SameCore(a: Cpu, b: Cpu)
    requires IsA53(a) && IsA53(b)
    ensures CoreOf(a) == CoreOf(b) <==> a == b
  {
  }

  /** R5 registers. */

  predicate Starts(table: seq<HandoffEntry>, running: Cpu, second: bool) {
    exists k :: 0 <= k < |table| && StartsOne(table[k], running, second)
  }

  predicate StartsOne(e: HandoffEntry, running: Cpu, second: bool) {
    e.Cpu() != running && Covers(e.Cpu(), second)
  }

  lemma RpuHandedBits(r: Rpu, e: HandoffEntry, running: Cpu, second: bool)
    requires e.Cpu() != running
    ensures HeldBit(RpuHanded(r, e), second) == if StartsOne(e, running, second) then 0 else HeldBit(r, second)
    ensures HaltBit(RpuHanded(r, e), second) == if StartsOne(e, running, second) then 1 else HaltBit(r, second)
  {
  }

  lemma StartsAppend(front: seq<HandoffEntry>, e: HandoffEntry, running: Cpu, second: bool)
    ensures Starts(front + [e], running, second) <==> Starts(front, running, second) || StartsOne(e, running, second)
  {
    hide StartsOne;
    var t := front + [e];
    assert t[|front|] == e;
    assert forall k :: 0 <= k < |front| ==> t[k] == front[k];
  }

  /** An R5 core is out of reset and of halt exactly if an entry named it or the pair, or it was already. */
  lemma {:induction false} RpuRegisters(c: Cores, table: seq<HandoffEntry>, running: Cpu, second: bool)
    ensures var r := HandedAll(c, table, running).rpu;
      && HeldBit(r, second) == (if Starts(table, running, second) then 0 else HeldBit(c.rpu, second))
      && HaltBit(r, second) == (if Starts(table, running, second) then 1 else HaltBit(c.rpu, second))
  {
    if table != [] {
      hide HeldBit, HaltBit, ApuHanded, RpuHanded, EventsOf, StartsOne;
      var n := |table| - 1;
      RpuRegisters(c, table[..n], running, second);
      StartsAppend(table[..n], table[n], running, second);
      assert table == table[..n] + [table[n]];
      if table[n].Cpu() != running {
        RpuHandedBits(HandedAll(c, table[..n], running).rpu, table[n], running, second);
      }
    }
  }

  // VINITHI of an R5 core. In lock step the first core's decides.
  function VinitBit(r: Rpu, second: bool): bv32 { (if second then r.cfg1 else r.cfg0) & 0x4 }

  predicate SelectsFor(e: HandoffEntry, running: Cpu, second: bool) {
    e.Cpu() != running && if second then e.Cpu() == R5_1 else e.Cpu() == R5_0 || e.Cpu() == R5_L
  }

  // What the last such entry asks for.
  function Selected(table: seq<HandoffEntry>, running: Cpu, second: bool): Option<bool> {
    if table == [] then None
    else
      var e := table[|table| - 1];
      if SelectsFor(e, running, second) then Some(e.attributes & 0x80_0000 != 0)
      else Selected(table[..|table| - 1], running, second)
  }

  lemma RpuHandedVinit(r: Rpu, e: HandoffEntry, running: Cpu, second: bool)
    requires e.Cpu() != running
    ensures VinitBit(RpuHanded(r, e), second) ==
      if !SelectsFor(e, running, second) then VinitBit(r, second) else if e.attributes & 0x80_0000 != 0 then 0x4 else 0
  {
  }

  /** The vector bit of an R5 core is what the last entry for it, or for the pair, asked for. */
  lemma {:induction false} R5VectorRegister(c: Cores, table: seq<HandoffEntry>, running: Cpu, second: bool)
    ensures VinitBit(HandedAll(c, table, running).rpu, second) ==
      match Selected(table, running, second)
      case None => VinitBit(c.rpu, second)
      case Some(high) => if high then 0x4 else 0
  {
    if table != [] {
      hide VinitBit, ApuHanded, RpuHanded, EventsOf, HandoffEntry.Cpu;
      var n := |table| - 1;
      R5VectorRegister(c, table[..n], running, second);
      if table[n].Cpu() != running {
        RpuHandedVinit(HandedAll(c, table[..n], running).rpu, table[n], running, second);
      }
    }
  }

  // The last R5 that was released, of those entries.
  function LastR5(table: seq<HandoffEntry>, running: Cpu): Cpu {
    if table == [] then CPU_NONE
    else
      var cpu := table[|table| - 1].Cpu();
      if cpu != running && IsR5(cpu) then cpu else LastR5(table[..|table| - 1], running)
  }

  lemma RpuHandedMode(r: Rpu, e: HandoffEntry)
    ensures PairMode(RpuHanded(r, e)) == if !IsR5(e.Cpu()) then PairMode(r) else if e.Cpu() == R5_L then 0x50 else 0x08
  {
  }

  /** The pair ends up split, or in lock step with combined TCM, as the last released R5 wants it. */
  lemma {:induction false} PairModeRegister(c: Cores, table: seq<HandoffEntry>, running: Cpu)
    ensures PairMode(HandedAll(c, table, running).rpu) ==
      var last := LastR5(table, running);
      if last == CPU_NONE then PairMode(c.rpu) else if last == R5_L then 0x50 else 0x08
  {
    hide PairMode, ApuHanded, RpuHanded, EventsOf;
    if table != [] {
      var n := |table| - 1;
      PairModeRegister(c, table[..n], running);
      RpuHandedMode(HandedAll(c, table[..n], running).rpu, table[n]);
    }
  }

  /** Where an R5 with low vectors gets them from: the place its image was put, except for the second
      split core and for addresses between the banks. */
  lemma VectorsComeFromImage(cpu: Cpu, address: u32)
    requires IsR5(cpu)
    ensures VectorCopy(cpu, false, address).from == GetLoadAddress(cpu, address, 0).at
       <==> address >= 0x40000 || (cpu != R5_1 && InTcm(cpu, address))
    ensures IsTcmDestination(if cpu == R5_1 then R5_0 else cpu, VectorCopy(cpu, false, address).to)
  {
  }
}
