/** Runtime/SpaceNavigatorHID.cs: the LED command the driver sends to the
    device, and the bookkeeping of the static `current` device, which
    `MakeCurrent`, `OnRemoved` and `Quit` update while sending LED commands. */
module SpaceNavigatorHid {
  import opened Common
  import opened HidElementDescriptor

  datatype LedStatus = Off | On

  /** `(byte)status`: the enum's values are Off = 0 and On = 1. */
  function StatusByte(status: LedStatus): uint8
  {
    if status == Off then 0 else 1
  }

  /** `InputDeviceCommand.BaseCommandSize`: the command type and the size
      field, four bytes each. */
  const BaseCommandSize: nat := 8
  const LedReportId: uint8 := 0x04
  const LedCommandType := FourCC('H', 'I', 'D', 'O')

  /** An LED command: the base command (type and total size) followed by the
      report ID and the status byte. */
  datatype LedCommand = LedCommand(commandType: FourCC, sizeInBytes: nat, reportId: uint8, status: uint8)

  /** `LEDCommand.Create`. */
  function Create(status: LedStatus): (cmd: LedCommand)
    ensures ReadStatus(cmd) == Some(status)
    ensures cmd.sizeInBytes == BaseCommandSize + 2 && cmd.reportId == LedReportId
  {
    LedCommand(LedCommandType, BaseCommandSize + 2, LedReportId, StatusByte(status))
  }

  /** The status a device reads from a command: a HID output command of
      report 4 carrying exactly its two payload bytes, whose status byte is 0
      or 1. */
  function ReadStatus(cmd: LedCommand): (r: Option<LedStatus>)
    ensures r.Some? ==> cmd.commandType == LedCommandType && cmd.reportId == LedReportId
    ensures r.Some? ==> cmd.status == StatusByte(r.value)
  {
    if cmd.commandType != LedCommandType || cmd.sizeInBytes != BaseCommandSize + 2 || cmd.reportId != LedReportId then None
    else if cmd.status == 0 then Some(Off)
    else if cmd.status == 1 then Some(On)
    else None
  }

  /** Every created command is read back as the status it was created with,
      and the two statuses give different commands. */
  lemma CreateReadRoundTrip(status: LedStatus)
    ensures ReadStatus(Create(status)) == Some(status)
    ensures Create(status).sizeInBytes - BaseCommandSize == 2
    ensures Create(status) != Create(if status == On then Off else On)
  {
  }

  /** `LEDCommand.On`. */
  function OnCommand(): (cmd: LedCommand)
    ensures ReadStatus(cmd) == Some(On)
  {
    CreateReadRoundTrip(On);
    Create(On)
  }

  /** `LEDCommand.Off`. */
  function OffCommand(): (cmd: LedCommand)
    ensures ReadStatus(cmd) == Some(Off)
  {
    CreateReadRoundTrip(Off);
    Create(Off)
  }

  /** Devices are compared by reference; a number stands for one. */
  type DeviceId = nat

  /** A command executed on a device. */
  datatype Sent = Sent(device: DeviceId, command: LedCommand)

  /** The static `current` device and the LED commands sent so far, in order. */
  datatype Bookkeeping = Bookkeeping(current: Option<DeviceId>, sent: seq<Sent>)

  function AfterSetLedStatus(b: Bookkeeping, device: DeviceId, status: LedStatus): Bookkeeping
  {
    b.(sent := b.sent + [Sent(device, Create(status))])
  }

  function AfterMakeCurrent(b: Bookkeeping, device: DeviceId): Bookkeeping
  {
    AfterSetLedStatus(b.(current := Some(device)), device, On)
  }

  function AfterOnRemoved(b: Bookkeeping, device: DeviceId): Bookkeeping
  {
    var current := if b.current == Some(device) then None else b.current;
    AfterSetLedStatus(b.(current := current), device, Off)
  }

  function AfterQuit(b: Bookkeeping): Bookkeeping
  {
    if b.current.Some? then AfterSetLedStatus(b, b.current.value, Off) else b
  }

  /** The status last sent to a device, if any. */
  function LastStatus(sent: seq<Sent>, device: DeviceId): Option<LedStatus>
  {
    if sent == [] then None
    else if sent[|sent| - 1].device == device then ReadStatus(sent[|sent| - 1].command)
    else LastStatus(sent[..|sent| - 1], device)
  }

  /** While the application runs, the current device's LED is on. */
  predicate CurrentIsLit(b: Bookkeeping)
  {
    b.current.Some? ==> LastStatus(b.sent, b.current.value) == Some(On)
  }

  /** The static state of the driver class. */
  class DeviceBookkeeping {
    var current: Option<DeviceId>
    var sent: seq<Sent>

    function State(): Bookkeeping
      reads this
    {
      Bookkeeping(current, sent)
    }

    constructor ()
      ensures State() == Bookkeeping(None, [])
    {
      current := None;
      sent := [];
    }

    /** `SetLEDStatus`: create the command and execute it on the device. */
    method SetLedStatus(device: DeviceId, status: LedStatus)
      modifies this
      ensures State() == AfterSetLedStatus(old(State()), device, status)
    {
      var cmd := Create(status);
      sent := sent + [Sent(device, cmd)];
    }

    method MakeCurrent(device: DeviceId)
      modifies this
      ensures State() == AfterMakeCurrent(old(State()), device)
    {
      current := Some(device);
      SetLedStatus(device, On);
    }

    method OnRemoved(device: DeviceId)
      modifies this
      ensures State() == AfterOnRemoved(old(State()), device)
    {
      if current == Some(device) {
        current := None;
      }
      SetLedStatus(device, Off);
    }

    method Quit()
      modifies this
      ensures State() == AfterQuit(old(State()))
    {
      if current.Some? {
        SetLedStatus(current.value, Off);
      }
    }
  }

  /** The last command sent to a device is the one `SetLEDStatus` just sent
      it; the other devices' last commands are unchanged. */
  lemma LastStatusAfterSend(b: Bookkeeping, device: DeviceId, status: LedStatus, other: DeviceId)
    ensures LastStatus(AfterSetLedStatus(b, device, status).sent, device) == Some(status)
    ensures other != device ==> LastStatus(AfterSetLedStatus(b, device, status).sent, other) == LastStatus(b.sent, other)
  {
    var sent := AfterSetLedStatus(b, device, status).sent;
    assert sent[..|sent| - 1] == b.sent;
    CreateReadRoundTrip(status);
  }

  /** After `MakeCurrent`, the device is current and its LED is on. */
  lemma MakeCurrentLightsDevice(b: Bookkeeping, device: DeviceId)
    ensures AfterMakeCurrent(b, device).current == Some(device)
    ensures LastStatus(AfterMakeCurrent(b, device).sent, device) == Some(On)
    ensures CurrentIsLit(AfterMakeCurrent(b, device))
  {
    LastStatusAfterSend(b.(current := Some(device)), device, On, device);
  }

  /** After `OnRemoved`, the removed device is not current and its LED is
      off; a different current device stays current with its LED as it was. */
  lemma OnRemovedTurnsDeviceOff(b: Bookkeeping, device: DeviceId)
    ensures AfterOnRemoved(b, device).current != Some(device)
    ensures LastStatus(AfterOnRemoved(b, device).sent, device) == Some(Off)
    ensures b.current != Some(device) ==> AfterOnRemoved(b, device).current == b.current
    ensures CurrentIsLit(b) ==> CurrentIsLit(AfterOnRemoved(b, device))
  {
    var cleared := b.(current := if b.current == Some(device) then None else b.current);
    LastStatusAfterSend(cleared, device, Off, device);
    if b.current.Some? && b.current != Some(device) {
      LastStatusAfterSend(cleared, device, Off, b.current.value);
    }
  }

  /** `Quit` turns the current device's LED off and sends nothing when there
      is no current device; `current` itself is kept. */
  lemma QuitTurnsCurrentOff(b: Bookkeeping)
    ensures AfterQuit(b).current == b.current
    ensures b.current.Some? ==> LastStatus(AfterQuit(b).sent, b.current.value) == Some(Off)
    ensures b.current.None? ==> AfterQuit(b).sent == b.sent
  {
    if b.current.Some? {
      LastStatusAfterSend(b, b.current.value, Off, b.current.value);
    }
  }

  /** Starting with no device, any sequence of `MakeCurrent` and `OnRemoved`
      keeps the current device lit. */
  datatype DeviceEvent = Made(device: DeviceId) | Removed(device: DeviceId)

  function Replay(b: Bookkeeping, events: seq<DeviceEvent>): Bookkeeping
    decreases |events|
  {
    if events == [] then b
    else
      var b' := if events[0].Made? then AfterMakeCurrent(b, events[0].device) else AfterOnRemoved(b, events[0].device);
      Replay(b', events[1..])
  }

  lemma {:induction false} ReplayKeepsCurrentLit(b: Bookkeeping, events: seq<DeviceEvent>)
    requires CurrentIsLit(b)
    ensures CurrentIsLit(Replay(b, events))
    decreases |events|
  {
    if events != [] {
      if events[0].Made? {
        MakeCurrentLightsDevice(b, events[0].device);
        ReplayKeepsCurrentLit(AfterMakeCurrent(b, events[0].device), events[1..]);
      } else {
        OnRemovedTurnsDeviceOff(b, events[0].device);
        ReplayKeepsCurrentLit(AfterOnRemoved(b, events[0].device), events[1..]);
      }
    }
  }
}
