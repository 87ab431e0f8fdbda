// Images on a device: a table at 0x100 and, from 0x1000 on, a chain of partition headers one behind the other.
// They show that what is proved about header arrays is met by images that can be read.
module FlashImage {
  import opened Bytes
  import opened Header
  import opened BootDevice

  // The header k of the chain names the place of header k + 1, in words.
  predicate Chained(headers: seq<PartitionHeader>) {
    forall k :: 0 <= k < |headers| ==> headers[k].NextOffset() == 0x400 + 16 * (k + 1)
  }

  // A table with a number of partitions, the place of the first header, and the device to go on to.
  function TableFor(n: u32, next: u32): (t: Words16)
    ensures Checksummed(t) && t[1] == n && t[2] == 0x400 && t[5] == next
  {
    Completed([0, n, 0x400, 0, 0, next, 0, 0, 0, 0, 0, 0, 0, 0, 0])
  }

  function WordAt(headers: seq<PartitionHeader>, next: u32, a: u32): u32
    requires |headers| <= 100
  {
    if a == TABLE_OFFSET then 0x100
    else if 0x100 <= a < 0x140 then TableFor(|headers|, next)[(a - 0x100) / 4]
    else if 0x1000 <= a < 0x1000 + 64 * |headers| then headers[(a - 0x1000) / 64].words[(a - 0x1000) % 64 / 4]
    else 0
  }

  function FlashOf(headers: seq<PartitionHeader>, next: u32): Flash
    requires |headers| <= 100
  {
    Flash(a => WordAt(headers, next, a), _ => 0)
  }

  lemma HeaderWord(headers: seq<PartitionHeader>, next: u32, k: nat, i: nat)
    requires k < |headers| <= 100 && i < 16
    ensures WordAt(headers, next, 0x1000 + 64 * k + 4 * i) == headers[k].words[i]
  {
    hide TableFor;
    assert (64 * k + 4 * i) / 64 == k && (64 * k + 4 * i) % 64 == 4 * i;
  }

  lemma TableIsRead(headers: seq<PartitionHeader>, next: u32)
    requires |headers| <= 100
    ensures Table(FlashOf(headers, next), 0) == TableFor(|headers|, next)
  {
    hide TableFor;
    assert TableAddress(FlashOf(headers, next), 0) == 0x100;
  }

  lemma HeaderIsRead(headers: seq<PartitionHeader>, next: u32, k: nat)
    requires k < |headers| <= 100
    ensures FlashOf(headers, next).Words(0x1000 + 64 * k) == headers[k].words
  {
    hide WordAt;
    var s := FlashOf(headers, next).Words(0x1000 + 64 * k);
    forall i | 0 <= i < 16
      ensures s[i] == headers[k].words[i]
    {
      HeaderWord(headers, next, k, i);
    }
  }

  lemma {:induction false} NodeIsHeader(headers: seq<PartitionHeader>, next: u32, k: nat)
    requires Chained(headers) && k < |headers| <= 100
    ensures NodeAddress(FlashOf(headers, next), 0, k) == 0x1000 + 64 * k
    ensures Node(FlashOf(headers, next), 0, k) == headers[k]
  {
    hide FlashOf, Table, TableFor, Flash.Words;
    if k == 0 {
      TableIsRead(headers, next);
    } else {
      NodeIsHeader(headers, next, k - 1);
    }
    HeaderIsRead(headers, next, k);
  }

  // The device, if it initialises and passes the checks before the table is read.
  function DeviceWith(headers: seq<PartitionHeader>, next: u32): Source
    requires |headers| <= 100
  {
    Source(0, 0, FlashOf(headers, next), 0)
  }

  lemma ImageReadable(headers: seq<PartitionHeader>, next: u32, n: nat)
    requires |headers| <= 100
    ensures TableReadable(FlashOf(headers, next), 0) && ChainReadable(FlashOf(headers, next), 0, n)
    ensures DeviceWith(headers, next).Partitions() == |headers| && DeviceWith(headers, next).NextDevice() == next
  {
    hide Table, TableFor, TableAddress, NodeAddress, WordAt;
    TableIsRead(headers, next);
  }

  /** Up to fifteen chained headers are what stage 2 finds on the device that holds them, if no other follows. */
  lemma HeadersAreFound(headers: seq<PartitionHeader>, secondary: Source, was: Slots)
    requires Chained(headers) && |headers| <= 15
    ensures var d := DeviceWith(headers, SAME_DEVICE);
      && Find(d, secondary) == Image(d) && d.Partitions() == |headers|
      && Stored(d, secondary, was) == d.Fill(was) == headers + was[|headers|..]
  {
    hide Table, FlashOf, TableReadable, ChainReadable, ReadStatus;
    var d := DeviceWith(headers, SAME_DEVICE);
    ReadsAsImage(headers, SAME_DEVICE);
    FilledWith(headers, SAME_DEVICE, was);
  }

  lemma ReadsAsImage(headers: seq<PartitionHeader>, next: u32)
    requires |headers| <= 15
    ensures var d := DeviceWith(headers, next);
      Validated(d) == Image(d) && d.Partitions() == |headers| && d.NextDevice() == next
  {
    hide Table, FlashOf, TableReadable, ChainReadable, ReadStatus;
    ImageReadable(headers, next, |headers|);
    ReadStatusIff(FlashOf(headers, next), 0);
  }

  lemma FilledWith(headers: seq<PartitionHeader>, next: u32, was: Slots)
    requires Chained(headers) && |headers| <= 15
    ensures DeviceWith(headers, next).Fill(was) == headers + was[|headers|..]
  {
    hide Table, Node, FlashOf;
    ImageReadable(headers, next, 0);
    forall k | 0 <= k < |headers|
      ensures DeviceWith(headers, next).Fill(was)[k] == headers[k]
    {
      NodeIsHeader(headers, next, k);
    }
  }

  /** More of them overrun the array, whatever they say. */
  lemma MoreOverrun(headers: seq<PartitionHeader>, next: u32, secondary: Source)
    requires 15 < |headers| <= 100
    ensures Find(DeviceWith(headers, next), secondary) == Overrun
  {
    hide Table, FlashOf, TableReadable, ChainReadable;
    ImageReadable(headers, next, 15);
    OverrunIff(DeviceWith(headers, next), secondary);
  }

  /** An image without partitions on a second device leaves the headers of the first in the array. */
  lemma HeadersStay(headers: seq<PartitionHeader>, next: u32, was: Slots)
    requires Chained(headers) && |headers| <= 15 && next != SAME_DEVICE
    ensures var d, e := DeviceWith(headers, next), DeviceWith([], SAME_DEVICE);
      && Find(d, e) == Image(e) && e.Partitions() == 0
      && Stored(d, e, was) == headers + was[|headers|..]
  {
    hide Table, FlashOf, TableReadable, ChainReadable, ReadStatus, Source.Fill;
    ReadsAsImage(headers, next);
    ReadsAsImage([], SAME_DEVICE);
    FilledWith(headers, next, was);
    FilledWith([], SAME_DEVICE, headers + was[|headers|..]);
  }
}
