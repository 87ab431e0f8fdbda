// Stage 2 of the boot: choosing the device that holds the image (fmsh_initialization.c), and reading the
// headers of the image there, of which the second device replaces those of the first.
module BootDevice {
  import opened Bytes
  import opened Power
  import opened Header

  const SAME_DEVICE: u32 := 0

  // A device: the status of its initialisation, the status of the checks before its image header is read,
  // what it holds, and where the image begins.
  datatype Source = Source(init: u32, header: u32, flash: Flash, image: u32)
  {
    function Partitions(): u32 { NoOfPartitions(Table(flash, image)) }
    function NextDevice(): u32 { PartitionPresentDevice(Table(flash, image)) }

    function Fill(was: Slots): Slots { Filled(was, flash, image, Partitions()) }

    function FillList(was: seq<AtfEntry>, running: Cpu): seq<AtfEntry> {
      Listed(was, FirstEight(AtfList(flash, image, running, Partitions())))
    }
  }

  // How stage 2 ends: with a status other than success, outside the header array, or with an image.
  datatype Found = Refused(status: u32) | Overrun | Image(source: Source)

  // FmshFsbl_ValidateHeader.
  function Validated(s: Source): Found {
    if s.header != 0 then Refused(s.header)
    else if Overruns(s.flash, s.image) then Overrun
    else if ReadStatus(s.flash, s.image) != 0 then Refused(ReadStatus(s.flash, s.image))
    else Image(s)
  }

  // FmshFsbl_BootDeviceInitAndValidate: the table of the first image may name another device.
  function Find(primary: Source, secondary: Source): Found {
    if primary.init != 0 then Refused(primary.init)
    else if !Validated(primary).Image? || primary.NextDevice() == SAME_DEVICE then Validated(primary)
    else if secondary.init != 0 then Refused(secondary.init)
    else Validated(secondary)
  }

  // The header array and the firmware list when an image was found: a second image is read over the first.
  function Stored(primary: Source, secondary: Source, was: Slots): Slots {
    if primary.NextDevice() == SAME_DEVICE then primary.Fill(was) else secondary.Fill(primary.Fill(was))
  }

  function StoredList(primary: Source, secondary: Source, was: seq<AtfEntry>, running: Cpu): seq<AtfEntry> {
    if primary.NextDevice() == SAME_DEVICE then primary.FillList(was, running)
    else secondary.FillList(primary.FillList(was, running), running)
  }

  /** An image that is found has at most fifteen partitions, and their headers are the nodes of its chain. */
  lemma FoundImage(primary: Source, secondary: Source, was: Slots)
    requires Find(primary, secondary).Image?
    ensures var s := Find(primary, secondary).source;
      && s == (if primary.NextDevice() == SAME_DEVICE then primary else secondary)
      && TableReadable(s.flash, s.image) && ChainReadable(s.flash, s.image, s.Partitions()) && s.Partitions() <= 15
      && forall k :: 0 <= k < s.Partitions() ==> Stored(primary, secondary, was)[k] == Node(s.flash, s.image, k)
  {
    hide TableReadable, ChainReadable, Overruns, ReadStatus, Table, Node;
    var s := Find(primary, secondary).source;
    ReadStatusIff(s.flash, s.image);
  }

  /** The header array is left exactly if a device that is read holds an image with more than fifteen
      partitions, of which fifteen can be read. */
  lemma OverrunIff(primary: Source, secondary: Source)
    ensures Find(primary, secondary) == Overrun <==>
      && primary.init == 0 && primary.header == 0
      && (|| Overruns(primary.flash, primary.image)
          || (&& ReadStatus(primary.flash, primary.image) == 0 && primary.NextDevice() != SAME_DEVICE
              && secondary.init == 0 && secondary.header == 0 && Overruns(secondary.flash, secondary.image)))
  {
    hide Overruns, ReadStatus, Table;
  }

  // FmshFsbl_ValidateHeader.
  method ValidateHeader(s: Source, headers: ImageHeader, running: Cpu) returns (status: u32, inside: bool)
    requires headers.Valid()
    modifies headers, headers.partitionHeader, headers.atf
    ensures headers.Valid()
    ensures match Validated(s)
      case Refused(refusal) => inside && status == refusal != 0
      case Overrun => !inside
      case Image(_) =>
        && inside && status == 0 && headers.table == Table(s.flash, s.image)
        && headers.Headers() == s.Fill(old(headers.Headers()))
        && headers.List() == s.FillList(old(headers.List()), running)
  {
    hide Overruns, ReadStatus, Table, AtfList, FirstEight, Listed, Filled;
    if s.header != 0 {
      return s.header, true;
    }
    status, inside := headers.ReadImageHeader(s.flash, s.image, running);
  }

  // FmshFsbl_BootDeviceInitAndValidate.
  method BootDeviceInitAndValidate(primary: Source, secondary: Source, headers: ImageHeader, running: Cpu)
    returns (status: u32, inside: bool)
    requires headers.Valid()
    modifies headers, headers.partitionHeader, headers.atf
    ensures headers.Valid()
    ensures match Find(primary, secondary)
      case Refused(refusal) => inside && status == refusal != 0
      case Overrun => !inside
      case Image(s) =>
        && inside && status == 0 && headers.table == Table(s.flash, s.image)
        && headers.Headers() == Stored(primary, secondary, old(headers.Headers()))
        && headers.List() == StoredList(primary, secondary, old(headers.List()), running)
  {
    hide Source.Fill, Source.FillList, Table, Overruns, ReadStatus;
    if primary.init != 0 {
      return primary.init, true;
    }
    status, inside := ValidateHeader(primary, headers, running);
    if !inside || status != 0 || PartitionPresentDevice(headers.table) == SAME_DEVICE {
      return;
    }
    if secondary.init != 0 {
      return secondary.init, true;
    }
    status, inside := ValidateHeader(secondary, headers, running);
  }
}
