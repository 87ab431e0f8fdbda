// The USB firmware-upgrade requests of dfu_app.c: the state machine behind them, the download counter
// that the loader waits on, and the image that has been received when the wait ends.
module Dfu {
  import opened Bytes

  const APP_IDLE: byte := 0x0
  const DFU_IDLE: byte := 0x2
  const DOWNLOAD_SYNC: byte := 0x3
  const DOWNLOAD_BUSY: byte := 0x4
  const DOWNLOAD_IDLE: byte := 0x5
  const STATUS_OK: byte := 0x0

  const DFU_ALT_SETTING: nat := 1
  const DOWNLOAD_COMPLETE: u32 := 2

  // The data of a download is its data stage, so its length is wLength.
  datatype Request =
    | SetInterface(wValue: u16, wIndex: u16, wLength: u16)
    | Detach
    | Download(wValue: u16, data: seq<byte>)
    | GetStatus(wLength: u16)
    | OtherClass

  datatype Device = Device(currState: byte, currStatus: byte, currentInf: u16, runtimeToDfu: bool,
                           totalBytes: u32, downloadDone: u32, flash: seq<byte>)

  // Bytes received at a place not beyond what has been written before.
  function Received(flash: seq<byte>, at: nat, data: seq<byte>): seq<byte>
    requires at <= |flash|
  {
    flash[..at] + data + if at + |data| < |flash| then flash[at + |data|..] else []
  }

  // One request, as setup handles it.
  function Step(d: Device, r: Request): Device
    requires d.totalBytes <= |d.flash|
  {
    match r
    case SetInterface(wValue, wIndex, wLength) =>
      if wValue != 0 || wIndex != 0 || wLength != 0 then d
      else if wValue >= DFU_ALT_SETTING || d.runtimeToDfu then
        d.(currentInf := wValue, runtimeToDfu := false, currState := DFU_IDLE)
      else
        d.(currentInf := wValue, runtimeToDfu := false, currState := APP_IDLE, currStatus := STATUS_OK)
    case Download(wValue, data) =>
      var at := if wValue == 0 then 0 else d.totalBytes;
      if data == [] then d.(currState := DFU_IDLE, totalBytes := 0)
      else
        d.(flash := Received(d.flash, at, data), currState := DOWNLOAD_IDLE,
           totalBytes := (at + |data|) % 0x1_0000_0000)
    case GetStatus(_) =>
      if d.currState == DFU_IDLE then d.(currState := DOWNLOAD_SYNC, downloadDone := Add32(d.downloadDone, 1))
      else if d.currState == DOWNLOAD_SYNC then d.(currState := DOWNLOAD_BUSY)
      else d
    case Detach => d
    case OtherClass => d
  }

  class DfuIf {
    var currState: byte
    var currStatus: byte
    var currentInf: u16
    var runtimeToDfu: bool
    var totalBytes: u32
    var downloadDone: u32
    var flash: seq<byte>

    function View(): Device
      reads this
    {
      Device(currState, currStatus, currentInf, runtimeToDfu, totalBytes, downloadDone, flash)
    }

    // As FmshFsbl_InitDfu leaves it before it waits.
    constructor ()
      ensures View() == Initial()
    {
      currentInf, runtimeToDfu, totalBytes, downloadDone, flash := 0, false, 0, 0, [];
      currState, currStatus := DFU_IDLE, STATUS_OK;
    }

    // setup, for the class requests and SET_INTERFACE. The reply to a status request has the length that was
    // asked for; the request writes the first six bytes of it, and a longer reply goes on with what the buffer held.
    method Setup(r: Request) returns (stalled: bool, length: nat, reply: seq<byte>)
      requires totalBytes <= |flash|
      modifies this
      ensures View() == Step(old(View()), r)
      ensures stalled <==> (r.Detach? || r.OtherClass? ||
                            (r.SetInterface? && (r.wValue != 0 || r.wIndex != 0 || r.wLength != 0)))
      ensures length == if r.GetStatus? then r.wLength else 0
      ensures |reply| == if length < 6 then length else 6
      ensures r.GetStatus? ==> reply <= [currStatus, 0, 0, 0, currState, 0]
    {
      stalled, length, reply := false, 0, [];
      match r
      case SetInterface(wValue, wIndex, wLength) =>
        if wValue != 0 || wIndex != 0 || wLength != 0 {
          return true, 0, [];
        }
        currentInf := wValue;
        if currentInf >= DFU_ALT_SETTING || runtimeToDfu {
          runtimeToDfu := false;
          currState := DFU_IDLE;
        } else {
          currState := APP_IDLE;
          currStatus := STATUS_OK;
          runtimeToDfu := false;
        }
      case Download(wValue, data) =>
        if wValue == 0 {
          totalBytes := 0;
        }
        if |data| > 0 {
          flash := Received(flash, totalBytes, data);
          totalBytes := (totalBytes + |data|) % 0x1_0000_0000;
          currState := DOWNLOAD_IDLE;
        } else {
          currState := DFU_IDLE;
          totalBytes := 0;
        }
      case GetStatus(wLength) =>
        if currState == DFU_IDLE {
          currState := DOWNLOAD_SYNC;
          downloadDone := Add32(downloadDone, 1);
        } else if currState == DOWNLOAD_SYNC {
          currState := DOWNLOAD_BUSY;
        }
        length := wLength;
        reply := [currStatus, 0, 0, 0, currState, 0][..if length < 6 then length else 6];
      case Detach =>
        stalled := true;
      case OtherClass =>
        stalled := true;
    }
  }

  /** Traces. */

  function Initial(): Device {
    Device(DFU_IDLE, STATUS_OK, 0, false, 0, 0, [])
  }

  // The device after a sequence of requests.
  function After(t: seq<Request>): (d: Device)
    ensures d.totalBytes <= |d.flash|
    ensures !d.runtimeToDfu && d.currStatus == STATUS_OK
  {
    if t == [] then Initial() else
      var d := After(t[..|t| - 1]);
      ModuloBound(d.totalBytes, t[|t| - 1]);
      Step(d, t[|t| - 1])
  }

  lemma ModuloBound(total: u32, r: Request)
    ensures r.Download? ==> (total + |r.data|) % 0x1_0000_0000 <= total + |r.data|
    ensures r.Download? ==> |r.data| % 0x1_0000_0000 <= |r.data|
  {
  }

  predicate IsClose(r: Request) { r.Download? && r.data == [] }

  function Closes(t: seq<Request>): nat {
    if t == [] then 0 else Closes(t[..|t| - 1]) + if IsClose(t[|t| - 1]) then 1 else 0
  }

  // The blocks since the counter was last reset, joined.
  function Pending(t: seq<Request>): seq<byte> {
    if t == [] then []
    else
      var r := t[|t| - 1];
      if !r.Download? then Pending(t[..|t| - 1])
      else if r.data == [] then []
      else (if r.wValue == 0 then [] else Pending(t[..|t| - 1])) + r.data
  }

  // The image that the last close completed, unless a block has been received since.
  function Completed(t: seq<Request>): Option<seq<byte>> {
    if t == [] then Some([])
    else
      var r := t[|t| - 1];
      if !r.Download? then Completed(t[..|t| - 1])
      else if r.data != [] then None
      else Some(if r.wValue == 0 then [] else Pending(t[..|t| - 1]))
  }

  // No run of blocks without a reset reached four gibibytes.
  predicate Bounded(t: seq<Request>) {
    forall k :: 0 <= k <= |t| ==> |Pending(t[..k])| < 0x1_0000_0000
  }

  lemma BoundedFront(t: seq<Request>)
    requires t != [] && Bounded(t)
    ensures Bounded(t[..|t| - 1]) && |Pending(t)| < 0x1_0000_0000
  {
    var front := t[..|t| - 1];
    assert t[..|t|] == t;
    forall k | 0 <= k <= |front|
      ensures |Pending(front[..k])| < 0x1_0000_0000
    {
      assert front[..k] == t[..k];
    }
  }

  /** The counter is ahead of the closed downloads by at most one, the one the device starts with. */
  lemma {:induction false} CounterBound(t: seq<Request>)
    ensures After(t).downloadDone + (if After(t).currState == DFU_IDLE then 1 else 0) <= 1 + Closes(t)
  {
    if t != [] {
      hide Received;
      CounterBound(t[..|t| - 1]);
    }
  }

  // One block that does not wrap the counter.
  lemma BlockReceived(d: Device, wValue: u16, data: seq<byte>)
    requires d.totalBytes <= |d.flash| && data != []
    requires (if wValue == 0 then 0 else d.totalBytes) + |data| < 0x1_0000_0000
    ensures var e, at := Step(d, Download(wValue, data)), if wValue == 0 then 0 else d.totalBytes;
      && e.totalBytes == at + |data| <= |e.flash|
      && e.flash[..e.totalBytes] == d.flash[..at] + data
  {
    hide Received;
    ReceivedPrefix(d.flash, if wValue == 0 then 0 else d.totalBytes, data);
  }

  /** What has been received since the last reset is at the start of the flash, back to back. */
  lemma {:induction false} FlashHoldsPending(t: seq<Request>)
    requires Bounded(t)
    ensures After(t).totalBytes == |Pending(t)|
    ensures After(t).flash[..After(t).totalBytes] == Pending(t)
  {
    if t != [] {
      var front, r := t[..|t| - 1], t[|t| - 1];
      BoundedFront(t);
      FlashHoldsPending(front);
      if r.Download? && r.data != [] {
        hide Step, Bounded;
        BlockReceived(After(front), r.wValue, r.data);
      } else {
        hide Received, Bounded;
      }
    }
  }

  lemma ReceivedPrefix(flash: seq<byte>, at: nat, data: seq<byte>)
    requires at <= |flash|
    ensures at + |data| <= |Received(flash, at, data)|
    ensures Received(flash, at, data)[..at + |data|] == flash[..at] + data
  {
  }

  // The flash starts with the image.
  predicate Holds(flash: seq<byte>, image: seq<byte>) {
    |image| <= |flash| && flash[..|image|] == image
  }

  /** A closed image stays in place until the next block, and the idle state always has one. */
  lemma {:induction false} CompletedStays(t: seq<Request>)
    requires Bounded(t)
    ensures After(t).currState == DFU_IDLE ==> Completed(t).Some?
    ensures Completed(t).Some? ==> Holds(After(t).flash, Completed(t).value)
  {
    if t != [] {
      var front, r := t[..|t| - 1], t[|t| - 1];
      BoundedFront(t);
      CompletedStays(front);
      if IsClose(r) {
        FlashHoldsPending(front);
      }
      hide Received;
    }
  }

  lemma OnlyIdleStatusCounts(d: Device, r: Request)
    requires d.totalBytes <= |d.flash| && Step(d, r).downloadDone != d.downloadDone
    ensures r.GetStatus? && d.currState == DFU_IDLE
  {
  }

  /** The wait ends with the second counted status request: then a download was closed, and the flash
      starts with exactly the blocks of the one that was closed last. */
  lemma WaitEndsWithImage(t: seq<Request>)
    requires Bounded(t) && t != [] && After(t[..|t| - 1]).downloadDone < DOWNLOAD_COMPLETE == After(t).downloadDone
    ensures Closes(t) >= 1 && t[|t| - 1].GetStatus?
    ensures Completed(t).Some? && Holds(After(t).flash, Completed(t).value)
  {
    hide Step, Closes, Holds;
    var front := t[..|t| - 1];
    OnlyIdleStatusCounts(After(front), t[|t| - 1]);
    CounterBound(t);
    BoundedFront(t);
    CompletedStays(front);
    CompletedStays(t);
  }

  /** The other way round: a host that sends an image and asks for the status brings the wait to its end. */

  function Joined(blocks: seq<seq<byte>>): seq<byte> {
    if blocks == [] then [] else Joined(blocks[..|blocks| - 1]) + blocks[|blocks| - 1]
  }

  // A status request, the blocks with their numbers, an empty block, and a status request.
  function Session(blocks: seq<seq<byte>>): seq<Request>
    requires |blocks| <= 0x1_0000
  {
    [GetStatus(6)] + seq(|blocks|, k requires 0 <= k < |blocks| => Download(k, blocks[k])) + [Download(0, []), GetStatus(6)]
  }

  lemma AfterMore(t: seq<Request>, r: Request)
    ensures After(t + [r]) == Step(After(t), r)
  {
    assert (t + [r])[..|t|] == t;
  }

  // While blocks come in: they are at the start of the flash, and the device waits for more of them.
  lemma {:induction false} BlocksArrive(blocks: seq<seq<byte>>, k: nat)
    requires |blocks| <= 0x1_0000 && k <= |blocks| && |Joined(blocks)| < 0x1_0000_0000
    requires forall i :: 0 <= i < |blocks| ==> blocks[i] != []
    ensures var d := After(Session(blocks)[..k + 1]);
      && d.totalBytes == |Joined(blocks[..k])| <= |Joined(blocks)| && Holds(d.flash, Joined(blocks[..k]))
      && d.currState == (if k == 0 then 3 else 5) && d.downloadDone == 1
  {
    var t := Session(blocks);
    if k == 0 {
      assert t[..1] == [] + [GetStatus(6)];
      AfterMore([], GetStatus(6));
      JoinedGrows(blocks, 0);
    } else {
      hide Step, Session, After, Holds;
      var r := Download(k - 1, blocks[k - 1]);
      BlocksArrive(blocks, k - 1);
      SessionGrows(blocks, k);
      AfterMore(t[..k], r);
      JoinedGrows(blocks, k);
      assert blocks[..k][..k - 1] == blocks[..k - 1];
      OneMoreHeld(After(t[..k]), k - 1, Joined(blocks[..k - 1]), blocks[k - 1]);
      BlockStates(After(t[..k]), k - 1, blocks[k - 1]);
    }
  }

  lemma SessionGrows(blocks: seq<seq<byte>>, k: nat)
    requires 0 < k <= |blocks| <= 0x1_0000
    ensures k + 1 <= |Session(blocks)| && Session(blocks)[..k + 1] == Session(blocks)[..k] + [Download(k - 1, blocks[k - 1])]
  {
    var t := Session(blocks);
    assert t[k] == Download(k - 1, blocks[k - 1]);
  }

  lemma OneMoreHeld(d: Device, wValue: u16, held: seq<byte>, data: seq<byte>)
    requires d.totalBytes == |held| <= |d.flash| && Holds(d.flash, held) && data != []
    requires |held| + |data| < 0x1_0000_0000 && (wValue == 0 ==> held == [])
    ensures var e := Step(d, Download(wValue, data)); e.totalBytes == |held + data| && Holds(e.flash, held + data)
  {
    hide Step;
    BlockReceived(d, wValue, data);
  }

  lemma BlockStates(d: Device, wValue: u16, data: seq<byte>)
    requires d.totalBytes <= |d.flash| && data != []
    ensures var e := Step(d, Download(wValue, data)); e.currState == 5 && e.downloadDone == d.downloadDone
  {
  }

  lemma {:induction false} JoinedGrows(blocks: seq<seq<byte>>, k: nat)
    requires k <= |blocks|
    ensures |Joined(blocks[..k])| <= |Joined(blocks)|
    decreases |blocks|
  {
    if k < |blocks| {
      JoinedGrows(blocks[..|blocks| - 1], k);
      assert blocks[..|blocks| - 1][..k] == blocks[..k];
    } else {
      assert blocks[..k] == blocks;
    }
  }

  /** After the session the count is two, the flash starts with the blocks in order, and the device is in the
      state download-sync; one more status request makes that download-busy. */
  lemma UpgradeCompletes(blocks: seq<seq<byte>>)
    requires 0 < |blocks| <= 0x1_0000 && |Joined(blocks)| < 0x1_0000_0000
    requires forall i :: 0 <= i < |blocks| ==> blocks[i] != []
    ensures var n, t := |blocks|, Session(blocks);
      && After(t[..n + 2]).currState == 2 && After(t[..n + 3]).currState == 3
      && After(t[..n + 2]).downloadDone == 1 && After(t[..n + 3]).downloadDone == 2
      && Holds(After(t[..n + 3]).flash, Joined(blocks)) && After(t[..n + 3]).currStatus == 0
      && After(t[..n + 3] + [GetStatus(6)]).currState == 4
  {
    hide After, Holds;
    var n, t := |blocks|, Session(blocks);
    BlocksArrive(blocks, n);
    assert blocks[..n] == blocks;
    assert t[..n + 2] == t[..n + 1] + [Download(0, [])];
    assert t[..n + 3] == t[..n + 2] + [GetStatus(6)];
    AfterMore(t[..n + 1], Download(0, []));
    AfterMore(t[..n + 2], GetStatus(6));
    AfterMore(t[..n + 3], GetStatus(6));
  }

  // Setting the interface ends an upgrade that was not asked for at run time, or begins one that was.
  lemma InterfaceSet(d: Device)
    requires d.totalBytes <= |d.flash|
    ensures var e := Step(d, SetInterface(0, 0, 0));
      if d.runtimeToDfu then e == d.(currentInf := 0, runtimeToDfu := false, currState := 2)
      else e == d.(currentInf := 0, currState := 0, currStatus := 0)
  {
  }
}
