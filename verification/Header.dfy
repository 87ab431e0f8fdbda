// Image and partition headers of fmsh_header.c: the word checksum, the chain of partition headers
// in the flash image, and the list handed to the ARM Trusted Firmware.
module Header {
  import opened Bytes
  import opened Power

  /** The checksum of headers: the complement of the sum of the words before it. */

  function Sum(words: seq<u32>): nat {
    if words == [] then 0 else Sum(words[..|words| - 1]) + words[|words| - 1]
  }

  predicate Checksummed(words: seq<u32>) {
    |words| >= 2 && Sum(words) % 0x1_0000_0000 == 0xFFFF_FFFF
  }

  lemma AddTruncated(sum: nat, w: u32)
    ensures Add32(sum % 0x1_0000_0000, w) == (sum + w) % 0x1_0000_0000
  {
  }

  method ValidateChecksum(buffer: seq<u32>) returns (ok: bool)
    ensures ok <==> |buffer| >= 2 && Sum(buffer) % 0x1_0000_0000 == 0xFFFF_FFFF
    ensures ok <==> Checksummed(buffer)
  {
    var length := |buffer|;
    if length < 2 {
      return false;
    }
    var checksum: u32, count := 0, 0;
    while count < length - 1
      invariant 0 <= count <= length - 1
      invariant checksum == Sum(buffer[..count]) % 0x1_0000_0000
    {
      AddTruncated(Sum(buffer[..count]), buffer[count]);
      assert buffer[..count + 1][..count] == buffer[..count];
      checksum := Add32(checksum, buffer[count]);
      count := count + 1;
    }
    AddTruncated(Sum(buffer[..count]), buffer[count]);
    assert buffer[..count + 1] == buffer;
    checksum := 0xFFFF_FFFF - checksum; // exclusive or with all ones
    ok := buffer[length - 1] == checksum;
  }

  // The word that makes a sum complete.
  function Complement(sum: nat): (w: u32)
    ensures (sum + w) % 0x1_0000_0000 == 0xFFFF_FFFF
  {
    0xFFFF_FFFF - sum % 0x1_0000_0000
  }

  lemma SumAppend(words: seq<u32>, w: u32)
    ensures Sum(words + [w]) == Sum(words) + w
  {
    assert (words + [w])[..|words|] == words;
  }

  lemma AppendedChecksum(words: seq<u32>)
    requires words != []
    ensures Checksummed(words + [Complement(Sum(words))])
  {
    hide Sum, Complement;
    SumAppend(words, Complement(Sum(words)));
  }

  lemma {:induction false} SumOfUpdate(words: seq<u32>, i: nat, w: u32)
    requires i < |words|
    ensures Sum(words[i := w]) == Sum(words) - words[i] + w
  {
    var n := |words| - 1;
    var changed := words[i := w];
    if i == n {
      assert changed[..n] == words[..n];
    } else {
      SumOfUpdate(words[..n], i, w);
      assert changed[..n] == words[..n][i := w];
    }
  }

  /** Changing any one word of an accepted header is detected. */
  lemma SingleWordChange(words: seq<u32>, i: nat, w: u32)
    requires Checksummed(words) && i < |words| && w != words[i]
    ensures !Checksummed(words[i := w])
  {
    SumOfUpdate(words, i, w);
    var a, b: int := Sum(words), Sum(words[i := w]);
    if b % 0x1_0000_0000 == 0xFFFF_FFFF {
      SameResidue(a, b);
    }
  }

  lemma SameResidue(a: int, b: int)
    requires a % 0x1_0000_0000 == b % 0x1_0000_0000 && -0x1_0000_0000 < b - a < 0x1_0000_0000
    ensures a == b
  {
  }

  /** Partition headers: the sixteen words of Ps_PartitionHeader. */

  type Words16 = s: seq<u32> | |s| == 16 witness [0, 0, 0, 0, 0, 0, 0, 0, 0, 0, 0, 0, 0, 0, 0, 0]

  function Bits(w: u32): bv32 { w as bv32 }

  datatype PartitionHeader = PartitionHeader(words: Words16)
  {
    function EncryptedLength(): u32 { words[0] }
    function UnencryptedLength(): u32 { words[1] }
    function TotalLength(): u32 { words[2] }
    function NextOffset(): u32 { words[3] }
    function ExecutionAddress(): u32 { words[4] }
    function LoadAddress(): u32 { words[6] }
    function Attributes(): bv32 { Bits(words[9]) }
    function DestinationCpu(): Cpu { CpuOf(Attributes()) }

    // A partition that names no CPU is for the running one.
    function ResolvedCpu(running: Cpu): Cpu {
      if DestinationCpu() == CPU_NONE then running else DestinationCpu()
    }
  }

  // The attributes as they lie in the header.
  function AsWord(attributes: bv32): (w: u32)
    ensures Bits(w) == attributes
  {
    attributes as u32
  }

  // A header with the given lengths, successor and attributes, zero elsewhere, and its checksum.
  function Sealed(encrypted: u32, unencrypted: u32, total: u32, next: u32, attributes: bv32): (h: PartitionHeader)
    ensures Checksummed(h.words) && h.Attributes() == attributes && h.NextOffset() == next
    ensures h.EncryptedLength() == encrypted && h.UnencryptedLength() == unencrypted && h.TotalLength() == total
    ensures h.ExecutionAddress() == 0 && h.LoadAddress() == 0
  {
    hide Checksummed, AsWord, Bits;
    var words := [encrypted, unencrypted, total, next, 0, 0, 0, 0, 0, AsWord(attributes), 0, 0, 0, 0, 0];
    var s := Completed(words);
    PartitionHeader(s)
  }

  // The words and their checksum.
  function Completed(words: seq<u32>): (s: seq<u32>)
    requires words != []
    ensures |s| == |words| + 1 && Checksummed(s) && forall i :: 0 <= i < |words| ==> s[i] == words[i]
  {
    hide Sum, Complement, Checksummed;
    AppendedChecksum(words);
    words + [Complement(Sum(words))]
  }

  function CpuOf(attributes: bv32): Cpu { attributes & 0x0F00 }
  function ExecState(attributes: bv32): bv32 { attributes & 0x0008 }

  function Times4(w: u32): u32 { 4 * w % 0x1_0000_0000 }

  /** The flash image. */

  // The word at a byte address, and the status of a DeviceCopy from it.
  datatype Flash = Flash(word: u32 -> u32, copy: u32 -> u32)
  {
    function Words(at: u32): Words16 {
      [word(at), word(Add32(at, 4)), word(Add32(at, 8)), word(Add32(at, 12)),
       word(Add32(at, 16)), word(Add32(at, 20)), word(Add32(at, 24)), word(Add32(at, 28)),
       word(Add32(at, 32)), word(Add32(at, 36)), word(Add32(at, 40)), word(Add32(at, 44)),
       word(Add32(at, 48)), word(Add32(at, 52)), word(Add32(at, 56)), word(Add32(at, 60))]
    }
  }

  const TABLE_OFFSET: u32 := 0x98

  function TableAddress(flash: Flash, image: u32): u32 {
    Add32(image, flash.word(Add32(image, TABLE_OFFSET)))
  }

  function Table(flash: Flash, image: u32): Words16 {
    flash.Words(TableAddress(flash, image))
  }

  function NoOfPartitions(table: Words16): u32 { table[1] }
  function PartitionPresentDevice(table: Words16): u32 { table[5] }

  // Where the k-th header of the chain is, and the header.
  function NodeAddress(flash: Flash, image: u32, k: nat): u32
    decreases k, 0
  {
    Add32(image, Times4(if k == 0 then Table(flash, image)[2] else Node(flash, image, k - 1).NextOffset()))
  }

  function Node(flash: Flash, image: u32, k: nat): PartitionHeader
    decreases k, 1
  {
    PartitionHeader(flash.Words(NodeAddress(flash, image, k)))
  }

  lemma WordsAt(flash: Flash, at: u32, i: nat)
    requires i < 16
    ensures flash.Words(at)[i] == flash.word(Add32(at, 4 * i))
  {
    hide Add32;
    AddZero(at);
  }

  lemma AddZero(at: u32)
    ensures Add32(at, 0) == at
  {
  }

  /** Where the words that decide a boot lie on the device: the place of the table, the number of partitions, the
      next device and the first header in the table; lengths, successor, addresses and attributes in a header. */
  lemma Layout(flash: Flash, image: u32, k: nat)
    ensures var t, a := Add32(image, flash.word(Add32(image, 0x98))), NodeAddress(flash, image, k);
      var table, h := Table(flash, image), Node(flash, image, k);
      && TableAddress(flash, image) == t && NoOfPartitions(table) == flash.word(Add32(t, 0x4))
      && PartitionPresentDevice(table) == flash.word(Add32(t, 0x14))
      && NodeAddress(flash, image, 0) == Add32(image, 4 * flash.word(Add32(t, 0x8)) % 0x1_0000_0000)
      && NodeAddress(flash, image, k + 1) == Add32(image, 4 * flash.word(Add32(a, 0xC)) % 0x1_0000_0000)
      && h.EncryptedLength() == flash.word(Add32(a, 0x0)) && h.UnencryptedLength() == flash.word(Add32(a, 0x4))
      && h.TotalLength() == flash.word(Add32(a, 0x8)) && h.ExecutionAddress() == flash.word(Add32(a, 0x10))
      && h.LoadAddress() == flash.word(Add32(a, 0x18)) && h.Attributes() == flash.word(Add32(a, 0x24)) as bv32
  {
    hide Flash.Words, Add32, NodeAddress;
    var t, a := TableAddress(flash, image), NodeAddress(flash, image, k);
    WordsAt(flash, t, 1);
    WordsAt(flash, t, 2);
    WordsAt(flash, t, 5);
    forall i | 0 <= i < 16
      ensures flash.Words(a)[i] == flash.word(Add32(a, 4 * i))
    {
      WordsAt(flash, a, i);
    }
    ChainAddresses(flash, image, k);
  }

  lemma ChainAddresses(flash: Flash, image: u32, k: nat)
    ensures NodeAddress(flash, image, 0) == Add32(image, Times4(Table(flash, image)[2]))
    ensures NodeAddress(flash, image, k + 1) == Add32(image, Times4(Node(flash, image, k).NextOffset()))
  {
    hide Flash.Words, Add32, Times4;
  }

  predicate TableReadable(flash: Flash, image: u32) {
    && flash.copy(Add32(image, TABLE_OFFSET)) == 0
    && flash.copy(TableAddress(flash, image)) == 0
    && Checksummed(Table(flash, image))
  }

  type Slots = s: seq<PartitionHeader> | |s| == 15 witness seq(15, _ => NO_HEADER)

  // The array before anything is read.
  function NoHeaders(): Slots { seq(15, _ => NO_HEADER) }

  const NO_HEADER := PartitionHeader([0, 0, 0, 0, 0, 0, 0, 0, 0, 0, 0, 0, 0, 0, 0, 0])

  // The header array when the first n nodes have been stored over what was there.
  function Filled(was: Slots, flash: Flash, image: u32, n: nat): (s: Slots)
    ensures forall k :: 0 <= k < 15 ==> s[k] == if k < n then Node(flash, image, k) else was[k]
  {
    seq(15, k requires 0 <= k < 15 => if k < n then Node(flash, image, k) else was[k])
  }

  predicate ChainReadable(flash: Flash, image: u32, n: nat) {
    forall k :: 0 <= k < n ==> flash.copy(NodeAddress(flash, image, k)) == 0
  }

  // The status of the first copy of the chain that fails.
  function ChainStatus(flash: Flash, image: u32, n: nat): u32 {
    if n == 0 then 0
    else if ChainStatus(flash, image, n - 1) != 0 then ChainStatus(flash, image, n - 1)
    else flash.copy(NodeAddress(flash, image, n - 1))
  }

  // What reading the table and the chain returns.
  function ReadStatus(flash: Flash, image: u32): u32 {
    if flash.copy(Add32(image, TABLE_OFFSET)) != 0 then flash.copy(Add32(image, TABLE_OFFSET))
    else if flash.copy(TableAddress(flash, image)) != 0 then flash.copy(TableAddress(flash, image))
    else if !Checksummed(Table(flash, image)) then 1
    else ChainStatus(flash, image, NoOfPartitions(Table(flash, image)))
  }

  // A sixteenth header is stored: its place is behind the array.
  predicate Overruns(flash: Flash, image: u32) {
    TableReadable(flash, image) && NoOfPartitions(Table(flash, image)) > 15 && ChainReadable(flash, image, 15)
  }

  lemma {:induction false} ChainStatusIff(flash: Flash, image: u32, n: nat)
    ensures ChainStatus(flash, image, n) == 0 <==> ChainReadable(flash, image, n)
  {
    hide NodeAddress;
    if n > 0 {
      ChainStatusIff(flash, image, n - 1);
      ChainGrows(flash, image, n - 1);
    }
  }

  /** Reading succeeds exactly if table and chain can be read and the table is checksummed; then, inside the
      array, there are at most fifteen headers. */
  lemma ReadStatusIff(flash: Flash, image: u32)
    ensures ReadStatus(flash, image) == 0 <==>
      TableReadable(flash, image) && ChainReadable(flash, image, NoOfPartitions(Table(flash, image)))
    ensures ReadStatus(flash, image) == 0 && !Overruns(flash, image) ==> NoOfPartitions(Table(flash, image)) <= 15
  {
    hide Checksummed, Table, TableAddress, NodeAddress, ChainStatus;
    ChainStatusIff(flash, image, NoOfPartitions(Table(flash, image)));
  }

  lemma {:induction false} ChainStatusStays(flash: Flash, image: u32, k: nat, n: nat)
    requires k <= n && ChainStatus(flash, image, k) != 0
    ensures ChainStatus(flash, image, n) == ChainStatus(flash, image, k)
  {
    hide NodeAddress;
    if k < n {
      ChainStatusStays(flash, image, k, n - 1);
    }
  }

  lemma ChainGrows(flash: Flash, image: u32, k: nat)
    ensures ChainReadable(flash, image, k + 1)
       <==> ChainReadable(flash, image, k) && flash.copy(NodeAddress(flash, image, k)) == 0
  {
  }

  lemma ChainFails(flash: Flash, image: u32, k: nat, n: nat)
    requires k <= n && k <= 15 && ChainStatus(flash, image, k) != 0
    ensures ChainStatus(flash, image, n) == ChainStatus(flash, image, k) && !ChainReadable(flash, image, 15)
  {
    hide ChainStatus, ChainReadable;
    ChainStatusStays(flash, image, k, n);
    ChainStatusStays(flash, image, k, 15);
    ChainStatusIff(flash, image, 15);
  }

  /** The list for the ARM Trusted Firmware. */

  datatype AtfEntry = AtfEntry(entryPoint: u32, flags: bv32)

  predicate ForAtf(h: PartitionHeader, running: Cpu) {
    h.ExecutionAddress() != 0 && A53_0 <= h.ResolvedCpu(running) <= A53_3
  }

  function AtfFlags(attributes: bv32): bv32 {
    var flags := ((attributes & 0x0008) >> 3) | ((attributes & 0x4_0000) >> 17)
               | ((attributes & 0x0001) << 2) | ((attributes & 0x0006) << 2);
    if CpuOf(attributes) == A53_0 then flags | 0x00
    else if CpuOf(attributes) == A53_1 then flags | 0x20
    else if CpuOf(attributes) == A53_2 then flags | 0x40
    else flags | 0x60
  }

  function AtfEntryOf(h: PartitionHeader): AtfEntry {
    AtfEntry(h.ExecutionAddress(), AtfFlags(h.Attributes()))
  }

  // Every entry that the first n headers call for.
  function AtfList(flash: Flash, image: u32, running: Cpu, n: nat): seq<AtfEntry> {
    if n == 0 then [] else
      AtfList(flash, image, running, n - 1)
      + if n - 1 > 1 && ForAtf(Node(flash, image, n - 1), running) then [AtfEntryOf(Node(flash, image, n - 1))] else []
  }

  lemma AtfListGrows(flash: Flash, image: u32, running: Cpu, n: nat)
    ensures AtfList(flash, image, running, n + 1) ==
      if n > 1 && ForAtf(Node(flash, image, n), running)
      then AtfList(flash, image, running, n) + [AtfEntryOf(Node(flash, image, n))]
      else AtfList(flash, image, running, n)
  {
  }

  // Header k of the chain calls for an entry: it is neither of the first two, has an execution address and is
  // for an A53.
  predicate Wanted(flash: Flash, image: u32, running: Cpu, k: nat) {
    var h := Node(flash, image, k);
    var cpu := h.Attributes() & 0xF00;
    k >= 2 && h.ExecutionAddress() != 0 && 0x100 <= (if cpu == 0 then running else cpu) <= 0x400
  }

  // The positions are those of the headers that call for an entry, in order.
  ghost predicate AreWanted(flash: Flash, image: u32, running: Cpu, n: nat, at: seq<nat>) {
    && (forall i, j :: 0 <= i < j < |at| ==> at[i] < at[j])
    && (forall i :: 0 <= i < |at| ==> at[i] < n)
    && forall k :: 0 <= k < n ==> (Wanted(flash, image, running, k) <==> k in at)
  }

  lemma WantedIff(flash: Flash, image: u32, running: Cpu, k: nat)
    ensures Wanted(flash, image, running, k) <==> k > 1 && ForAtf(Node(flash, image, k), running)
  {
    hide Node, PartitionHeader.Attributes;
  }

  lemma WantedGrows(flash: Flash, image: u32, running: Cpu, n: nat, at: seq<nat>)
    requires AreWanted(flash, image, running, n, at)
    ensures AreWanted(flash, image, running, n + 1, if Wanted(flash, image, running, n) then at + [n] else at)
  {
    hide Wanted;
    var more := at + [n];
    assert more[|at|] == n && forall i :: 0 <= i < |at| ==> more[i] == at[i];
  }

  /** The list has an entry for each of them, and for no other header. */
  lemma {:induction false} AtfListIs(flash: Flash, image: u32, running: Cpu, n: nat) returns (at: seq<nat>)
    ensures AreWanted(flash, image, running, n, at) && |AtfList(flash, image, running, n)| == |at|
    ensures forall i :: 0 <= i < |at| ==>
      var h := Node(flash, image, at[i]);
      AtfList(flash, image, running, n)[i] == AtfEntry(h.ExecutionAddress(), AtfFlags(h.Attributes()))
  {
    hide Node, AtfFlags, Wanted, ForAtf, PartitionHeader.Attributes, PartitionHeader.ExecutionAddress;
    if n == 0 {
      at := [];
    } else {
      at := AtfListIs(flash, image, running, n - 1);
      hide AreWanted;
      WantedIff(flash, image, running, n - 1);
      WantedGrows(flash, image, running, n - 1, at);
      if Wanted(flash, image, running, n - 1) {
        at := at + [n - 1];
      }
    }
  }

  function FirstEight(s: seq<AtfEntry>): (r: seq<AtfEntry>)
    ensures |r| <= 8
  {
    if |s| <= 8 then s else s[..8]
  }

  // The list that stays: a chain that calls for no entry leaves the one that was there.
  function Listed(was: seq<AtfEntry>, list: seq<AtfEntry>): seq<AtfEntry> {
    if list == [] then was else list
  }

  lemma ListedGrows(was: seq<AtfEntry>, list: seq<AtfEntry>, e: AtfEntry)
    ensures Listed(was, list)[..|list|] + [e] == Listed(was, list + [e])
  {
    assert list[..|list|] == list;
    assert [] + [e] == [e];
  }

  lemma FirstEightGrows(s: seq<AtfEntry>, e: AtfEntry)
    ensures FirstEight(s + [e]) == if |FirstEight(s)| < 8 then FirstEight(s) + [e] else FirstEight(s)
  {
  }

  /** The receiver gets back what the header said; an unnamed CPU is reported as A53_3. */
  lemma AtfFlagsDecode(attributes: bv32)
    ensures var flags := AtfFlags(attributes);
      && (flags & 0x01 == 1 <==> attributes & 0x0008 != 0)
      && (flags & 0x02 != 0 <==> attributes & 0x4_0000 != 0)
      && (flags & 0x04 != 0 <==> attributes & 0x0001 != 0)
      && (flags & 0x18) >> 2 == attributes & 0x0006
      && flags & 0xFFFF_FF80 == 0
    ensures ((AtfFlags(attributes) & 0x60) << 3) + 0x100 == CpuOf(attributes)
        <==> A53_0 <= CpuOf(attributes) <= A53_3
  {
  }

  class ImageHeader {
    const partitionHeader: array<PartitionHeader>
    const atf: array<AtfEntry>
    var table: Words16
    var numEntries: nat

    ghost predicate Valid()
      reads this
    {
      partitionHeader.Length == 15 && atf.Length == 8 && numEntries <= 8
    }

    function Headers(): Slots
      reads this, partitionHeader
      requires Valid()
    {
      partitionHeader[..]
    }

    function List(): seq<AtfEntry>
      reads this, atf
      requires Valid()
    {
      atf[..numEntries]
    }

    // Static storage: all zero.
    constructor ()
      ensures Valid() && Headers() == NoHeaders() && List() == []
      ensures fresh(partitionHeader) && fresh(atf)
    {
      partitionHeader := new PartitionHeader[15](_ => NO_HEADER);
      atf := new AtfEntry[8];
      table := NO_HEADER.words;
      numEntries := 0;
    }

    // FmshFsbl_SetATFHandoffParameters.
    method SetAtfHandoffParameters(h: PartitionHeader, entryCount: nat)
      requires Valid() && entryCount < 8
      modifies this`numEntries, atf
      ensures Valid() && numEntries == entryCount + 1
      ensures atf[entryCount] == AtfEntryOf(h)
      ensures forall k :: 0 <= k < 8 && k != entryCount ==> atf[k] == old(atf[k])
    {
      numEntries := entryCount + 1;
      atf[entryCount] := AtfEntryOf(h);
    }

    // The first n headers of the chain have been read over what was there.
    ghost predicate HeadersRead(flash: Flash, image: u32, running: Cpu, n: nat, was: Slots, wasList: seq<AtfEntry>)
      requires Valid()
      reads this, partitionHeader, atf
    {
      && n <= 15 && Headers() == Filled(was, flash, image, n)
      && List() == Listed(wasList, FirstEight(AtfList(flash, image, running, n)))
    }

    // One header of the chain, and its entry for the ARM Trusted Firmware if it has one.
    method StoreHeader(h: PartitionHeader, index: nat, running: Cpu, entryCount: nat) returns (count: nat)
      requires Valid() && index < 15 && (entryCount == numEntries || entryCount == 0)
      modifies this`numEntries, partitionHeader, atf
      ensures Valid() && Headers() == old(Headers())[index := h]
      ensures var enters := index > 1 && entryCount < 8 && ForAtf(h, running);
        && count == (if enters then entryCount + 1 else entryCount)
        && List() == if enters then old(List())[..entryCount] + [AtfEntryOf(h)] else old(List())
    {
      partitionHeader[index] := h;
      count := entryCount;
      if index > 1 && entryCount < 8 && h.ExecutionAddress() != 0
         && A53_0 <= h.ResolvedCpu(running) <= A53_3 {
        SetAtfHandoffParameters(h, entryCount);
        count := entryCount + 1;
      }
    }

    // FmshFsbl_ReadImageHeader. The source does not compare the number of partitions with the size of its
    // array. When a sixteenth header would be stored the model stops, and says so in inside.
    method ReadImageHeader(flash: Flash, image: u32, running: Cpu) returns (status: u32, inside: bool)
      requires Valid()
      modifies this, partitionHeader, atf
      ensures Valid()
      ensures inside <==> !Overruns(flash, image)
      ensures inside ==> status == ReadStatus(flash, image)
      ensures inside && status == 0 ==>
        && table == Table(flash, image)
        && HeadersRead(flash, image, running, NoOfPartitions(table), old(Headers()), old(List()))
    {
      inside := true;
      status := flash.copy(Add32(image, TABLE_OFFSET));
      if status != 0 { return; }
      status := flash.copy(TableAddress(flash, image));
      if status != 0 { return; }
      table := Table(flash, image);
      var ok := ValidateChecksum(table);
      if !ok { return 1, true; }
      status, inside := ReadPartitionHeaders(flash, image, running);
    }

    // Before the loop copies the header at the given index: the ones below it are read.
    ghost predicate Reading(flash: Flash, image: u32, running: Cpu, index: nat, address: u32, entryCount: nat,
                            was: Slots, wasList: seq<AtfEntry>)
      requires Valid()
      reads this, partitionHeader, atf
    {
      && ChainStatus(flash, image, index) == 0 && Add32(image, address) == NodeAddress(flash, image, index)
      && entryCount == |FirstEight(AtfList(flash, image, running, index))|
      && HeadersRead(flash, image, running, index, was, wasList)
    }

    lemma NothingRead(flash: Flash, image: u32, running: Cpu)
      requires Valid()
      ensures Reading(flash, image, running, 0, Times4(Table(flash, image)[2]), 0, Headers(), List())
    {
    }

    lemma AllRead(flash: Flash, image: u32, running: Cpu, n: nat, address: u32, entryCount: nat,
                  was: Slots, wasList: seq<AtfEntry>)
      requires Valid() && Reading(flash, image, running, n, address, entryCount, was, wasList)
      ensures ChainStatus(flash, image, n) == 0 && ChainReadable(flash, image, n)
      ensures HeadersRead(flash, image, running, n, was, wasList)
    {
      hide ChainStatus, ChainReadable, HeadersRead;
      ChainStatusIff(flash, image, n);
    }

    method ReadPartitionHeaders(flash: Flash, image: u32, running: Cpu) returns (status: u32, inside: bool)
      requires Valid() && table == Table(flash, image)
      modifies this`numEntries, partitionHeader, atf
      ensures Valid()
      ensures inside <==> !(NoOfPartitions(table) > 15 && ChainReadable(flash, image, 15))
      ensures inside ==> status == ChainStatus(flash, image, NoOfPartitions(table))
      ensures inside && status == 0 ==>
        HeadersRead(flash, image, running, NoOfPartitions(table), old(Headers()), old(List()))
    {
      hide Reading, HeadersRead, ChainReadable, ChainStatus, Table, NoOfPartitions, Times4;
      ghost var was, wasList := Headers(), List();
      var n := NoOfPartitions(table);
      var address, index, entryCount := Times4(table[2]), 0, 0;
      status, inside := 0, true;
      NothingRead(flash, image, running);
      while index < n
        invariant Valid() && index <= n && index <= 15 && status == 0 && inside
        invariant Reading(flash, image, running, index, address, entryCount, was, wasList)
      {
        if index == 15 {
          AllRead(flash, image, running, index, address, entryCount, was, wasList);
          return 0, false;
        }
        status, address, entryCount := ReadNext(flash, image, running, address, index, entryCount, was, wasList);
        if status != 0 {
          ChainFails(flash, image, index + 1, n);
          return;
        }
        index := index + 1;
      }
      AllRead(flash, image, running, n, address, entryCount, was, wasList);
    }

    // The body of the loop.
    method ReadNext(flash: Flash, image: u32, running: Cpu, address: u32, index: nat, entryCount: nat,
                    ghost was: Slots, ghost wasList: seq<AtfEntry>)
      returns (status: u32, next: u32, count: nat)
      requires Valid() && index < 15
      requires Reading(flash, image, running, index, address, entryCount, was, wasList)
      modifies this`numEntries, partitionHeader, atf
      ensures Valid()
      ensures status == ChainStatus(flash, image, index + 1)
      ensures status == 0 ==> Reading(flash, image, running, index + 1, next, count, was, wasList)
    {
      AtfListGrows(flash, image, running, index);
      hide ForAtf, AtfEntryOf, FirstEight, AtfList, Flash.Words, PartitionHeader.NextOffset, Times4;
      next, count := address, entryCount;
      status := flash.copy(Add32(image, address));
      if status != 0 { return; }
      var h := PartitionHeader(flash.Words(Add32(image, address)));
      FirstEightGrows(AtfList(flash, image, running, index), AtfEntryOf(h));
      ListedGrows(wasList, FirstEight(AtfList(flash, image, running, index)), AtfEntryOf(h));
      count := StoreHeader(h, index, running, entryCount);
      next := Times4(h.NextOffset());
      assert Add32(image, next) == NodeAddress(flash, image, index + 1);
      assert List() == Listed(wasList, FirstEight(AtfList(flash, image, running, index + 1)));
      assert Filled(was, flash, image, index + 1) == Filled(was, flash, image, index)[index := h];
    }
  }
}
