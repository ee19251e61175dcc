/** The filesystem serial layer (vice/src/serial/fsdrive.c) as functions on
    an explicit state: what each entry point does to the channel tables, the
    shared name buffer and the record of driver calls, and what status it
    reports. The class in module FsDrive is proved to behave exactly so. */
module FsDriveModel {
  import opened SerialTypes

  const Units: nat := 16        // SERIAL_MAXDEVICES
  const Channels: nat := 16     // secondary address low nibble
  const Slots: nat := 256       // Units * Channels
  const NameLength: nat := 255  // SERIAL_NAMELENGTH; the buffer has one cell more
  const DeviceNotPresent: Byte := 0x83

  /** The per-device channel tables are laid out flat: unit-major. */
  function Slot(unit: nat, channel: nat): (k: nat)
    requires unit < Units && channel < Channels
    ensures k < Slots
  {
    unit * 16 + channel
  }

  /** `device & 0x0f` */
  function UnitOf(device: nat): nat { device % 16 }

  /** `secondary & 0x0f` */
  function ChannelOf(secondary: Byte): nat { secondary % 16 }

  /** `secondary & 0xf0` */
  function CommandOf(secondary: Byte): Byte { secondary / 16 * 16 }

  /** The vdrive handle the command, write, read and listen paths pass:
      only units 8 and up are backed by a virtual drive. */
  function TargetOf(unit: nat): Target { if unit >= 8 then VDrive(unit) else NullTarget }

  /** isopen, nextok, nextbyte: the per-device, per-channel tables;
      buffer, ptr: SerialBuffer and SerialPtr; trace: every driver call so far. */
  datatype State = State(
    isopen: seq<ChannelState>,
    nextok: seq<bool>,
    nextbyte: seq<Byte>,
    buffer: seq<Byte>,
    ptr: nat,
    trace: seq<DriverCall>)

  predicate Valid(s: State)
  {
    |s.isopen| == Slots && |s.nextok| == Slots && |s.nextbyte| == Slots &&
    |s.buffer| == NameLength + 1 && s.ptr <= NameLength
  }

  /** The file name collected so far. */
  function Name(s: State): seq<Byte>
    requires Valid(s)
  {
    s.buffer[..s.ptr]
  }

  /** Driver calls are only ever added at the end of the record. */
  predicate Extends(before: seq<DriverCall>, after: seq<DriverCall>)
  {
    |before| <= |after| && after[..|before|] == before
  }

  /** Zero-initialised static storage: every channel closed, nothing buffered. */
  function Initial(): (s: State)
    ensures Valid(s) && Name(s) == [] && s.trace == []
    ensures forall k | 0 <= k < Slots :: s.isopen[k] == Closed && !s.nextok[k]
  {
    State(seq(256, _ => Closed), seq(256, _ => false), seq(256, _ => 0), seq(256, _ => 0), 0, [])
  }

  /** A status from serialcommand; Reported: the status handed to the
      callback, if any; Fetched: what fsdrive_read returns and reports. */
  datatype Outcome = Outcome(state: State, status: Byte)
  datatype Reported = Reported(state: State, report: Option<Byte>)
  datatype Fetched = Fetched(state: State, data: Byte, status: Byte)

  /** The flushf call the OPEN CHANNEL and OPEN FILE commands end with, when the driver has one. */
  function FlushCalls(env: Env, unit: nat, channel: nat): seq<DriverCall>
  {
    if env.device(unit).hasFlush then [FlushCall(unit, TargetOf(unit), channel)] else []
  }

  /** The putf calls that hand `bytes` to a channel one at a time, in order. */
  function Replay(unit: nat, target: Target, bytes: seq<Byte>, channel: nat): seq<DriverCall>
  {
    if bytes == [] then []
    else Replay(unit, target, bytes[..|bytes| - 1], channel) + [PutCall(unit, target, bytes[|bytes| - 1], channel)]
  }

  /** OPEN CHANNEL (0x60): a channel awaiting its name opens with a NULL name
      and then receives, through putf, the bytes written to it meanwhile. */
  function OpenChannel(s: State, env: Env, unit: nat, channel: nat): (r: Outcome)
    requires Valid(s) && unit < Units && channel < Channels
    ensures Valid(r.state)
  {
    var k := Slot(unit, channel);
    var t := TargetOf(unit);
    if s.isopen[k] == AwaitingName then
      var open := OpenCall(unit, t, None, 0, channel);
      var st := ToByte(env.respond(s.trace, open).status);
      var replayed := s.trace + [open] + Replay(unit, t, Name(s), channel);
      Outcome(s.(isopen := s.isopen[k := Open], ptr := 0,
                 trace := replayed + FlushCalls(env, unit, channel)), st)
    else
      Outcome(s.(trace := s.trace + FlushCalls(env, unit, channel)), 0)
  }

  /** CLOSE FILE (0xE0). */
  function CloseFile(s: State, env: Env, unit: nat, channel: nat): (r: Outcome)
    requires Valid(s) && unit < Units && channel < Channels
    ensures Valid(r.state)
  {
    var close := CloseCall(unit, TargetOf(unit), channel);
    Outcome(s.(isopen := s.isopen[Slot(unit, channel) := Closed], trace := s.trace + [close]),
            ToByte(env.respond(s.trace, close).status))
  }

  /** The delayed-close rule: OPEN FILE closes and reopens only a channel
      that is not closed, and only when a name was collected or the channel
      is the command channel 15. */
  predicate ReopenDue(s: State, unit: nat, channel: nat)
    requires Valid(s) && unit < Units && channel < Channels
  {
    s.isopen[Slot(unit, channel)] != Closed && (s.ptr != 0 || channel == 15)
  }

  /** The delayed close itself: close, then open again under the collected
      name; a nonzero status of that open closes the channel once more. */
  function Reopen(s: State, env: Env, unit: nat, channel: nat): (r: Outcome)
    requires Valid(s) && unit < Units && channel < Channels
    ensures Valid(r.state)
  {
    var k := Slot(unit, channel);
    var t := TargetOf(unit);
    var close := CloseCall(unit, t, channel);
    var open := OpenCall(unit, t, Some(Name(s)), s.ptr, channel);
    var st := ToByte(env.respond(s.trace + [close], open).status);
    var reopened := s.(isopen := s.isopen[k := Open], buffer := s.buffer[s.ptr := 0], ptr := 0,
                     trace := s.trace + [close, open]);
    if st != 0 then Outcome(reopened.(isopen := reopened.isopen[k := Closed], trace := reopened.trace + [close]), st)
    else Outcome(reopened, st)
  }

  /** OPEN FILE (0xF0). */
  function OpenFile(s: State, env: Env, unit: nat, channel: nat): (r: Outcome)
    requires Valid(s) && unit < Units && channel < Channels
    ensures Valid(r.state)
  {
    var settled := if ReopenDue(s, unit, channel) then Reopen(s, env, unit, channel) else Outcome(s, 0);
    Outcome(settled.state.(trace := settled.state.trace + FlushCalls(env, unit, channel)), settled.status)
  }

  /** serialcommand: a secondary address under attention. Every command but
      OPEN CHANNEL first drops the channel's read-ahead byte; LISTEN/TALK
      (0x20-0x50) and unknown commands do nothing else and report 0. */
  function SerialCommand(s: State, env: Env, device: nat, secondary: Byte): (r: Outcome)
    requires Valid(s)
    ensures Valid(r.state)
  {
    var unit := UnitOf(device);
    var channel := ChannelOf(secondary);
    var k := Slot(unit, channel);
    var cmd := CommandOf(secondary);
    var s1 := if cmd != 0x60 then s.(nextok := s.nextok[k := false]) else s;
    if cmd == 0x60 then OpenChannel(s1, env, unit, channel)
    else if cmd == 0xE0 then CloseFile(s1, env, unit, channel)
    else if cmd == 0xF0 then OpenFile(s1, env, unit, channel)
    else Outcome(s1, 0)
  }

  /** fsdrive_open: the channel waits for its name; no driver call, no status. */
  function BeginOpen(s: State, device: nat, secondary: Byte): (r: Reported)
    requires Valid(s)
    ensures Valid(r.state) && r.state.trace == s.trace && r.report == None
  {
    Reported(s.(isopen := s.isopen[Slot(UnitOf(device), ChannelOf(secondary)) := AwaitingName]), None)
  }

  /** fsdrive_close */
  function Close(s: State, env: Env, device: nat, secondary: Byte): (r: Reported)
    requires Valid(s)
    ensures Valid(r.state) && r.report.Some?
  {
    var o := SerialCommand(s, env, device, secondary);
    Reported(o.state, Some(o.status))
  }

  /** The listenf notification of units 8 and up whose driver has one. */
  function ListenCalls(env: Env, unit: nat, channel: nat): seq<DriverCall>
  {
    if env.device(unit).hasListen && unit >= 8 then [ListenCall(unit, VDrive(unit), channel)] else []
  }

  /** fsdrive_listentalk: the command, its status, then the listenf notification. */
  function ListenTalk(s: State, env: Env, device: nat, secondary: Byte): (r: Reported)
    requires Valid(s)
    ensures Valid(r.state) && r.report.Some?
  {
    var o := SerialCommand(s, env, device, secondary);
    var unit := UnitOf(device);
    Reported(o.state.(trace := o.state.trace + ListenCalls(env, unit, ChannelOf(secondary))), Some(o.status))
  }

  /** fsdrive_unlisten: OPEN FILE or channel 15 is a command (and drops the
      read-ahead byte even after OPEN CHANNEL); otherwise only listenf is told. */
  function Unlisten(s: State, env: Env, device: nat, secondary: Byte): (r: Reported)
    requires Valid(s)
    ensures Valid(r.state)
  {
    var unit := UnitOf(device);
    var channel := ChannelOf(secondary);
    if CommandOf(secondary) == 0xF0 || channel == 15 then
      var o := SerialCommand(s, env, device, secondary);
      Reported(o.state.(nextok := o.state.nextok[Slot(unit, channel) := false]), Some(o.status))
    else
      Reported(s.(trace := s.trace + ListenCalls(env, unit, channel)), None)
  }

  /** fsdrive_untalk does nothing. */
  function Untalk(s: State, device: nat, secondary: Byte): (r: Reported)
    ensures r.state == s && r.report == None
  {
    Reported(s, None)
  }

  /** fsdrive_write */
  function Write(s: State, env: Env, device: nat, secondary: Byte, data: Byte): (r: Reported)
    requires Valid(s)
    ensures Valid(r.state)
  {
    var unit := UnitOf(device);
    var channel := ChannelOf(secondary);
    if !env.device(unit).inUse then
      Reported(s, Some(DeviceNotPresent))
    else if s.isopen[Slot(unit, channel)] == AwaitingName then
      if s.ptr < NameLength then Reported(s.(buffer := s.buffer[s.ptr := data], ptr := s.ptr + 1), None)
      else Reported(s, None)
    else
      var put := PutCall(unit, TargetOf(unit), data, channel);
      Reported(s.(trace := s.trace + [put]), Some(ToByte(env.respond(s.trace, put).status)))
  }

  /** fsdrive_read: getf fills the read-ahead slot, whose byte is returned. */
  function Read(s: State, env: Env, device: nat, secondary: Byte): (r: Fetched)
    requires Valid(s)
    ensures Valid(r.state)
  {
    var unit := UnitOf(device);
    var channel := ChannelOf(secondary);
    var k := Slot(unit, channel);
    var get := GetCall(unit, TargetOf(unit), channel);
    var reply := env.respond(s.trace, get);
    var b := match reply.fetched case Some(v) => v case None => s.nextbyte[k];
    Fetched(s.(nextbyte := s.nextbyte[k := b], nextok := s.nextok[k := false], trace := s.trace + [get]),
            b, ToByte(reply.status))
  }

  /** One step of the reset sweep: a channel that is not closed is closed
      and its driver's closef is called with the unit's vdrive handle. */
  function ResetChannel(s: State, unit: nat, channel: nat): (r: State)
    requires Valid(s) && unit < Units && channel < Channels
    ensures Valid(r)
  {
    var k := Slot(unit, channel);
    if s.isopen[k] != Closed then
      s.(isopen := s.isopen[k := Closed], trace := s.trace + [CloseCall(unit, VDrive(unit), channel)])
    else s
  }

  /** The inner loop of fsdrive_reset, from `channel` on. */
  function ResetChannelsFrom(s: State, unit: nat, channel: nat): (r: State)
    requires Valid(s) && unit < Units && channel <= Channels
    ensures Valid(r)
    decreases Channels - channel
  {
    if channel == Channels then s
    else
      var s' := ResetChannel(s, unit, channel);
      ResetChannelsFrom(s', unit, channel + 1)
  }

  /** One pass of the outer loop of fsdrive_reset: a unit whose device is in
      use has its channels swept; any other unit is skipped. */
  function SweepUnit(s: State, env: Env, unit: nat): (r: State)
    requires Valid(s) && unit < Units
    ensures Valid(r)
  {
    if env.device(unit).inUse then ResetChannelsFrom(s, unit, 0) else s
  }

  /** The outer loop of fsdrive_reset, from `unit` on: devices in use are swept. */
  function ResetUnitsFrom(s: State, env: Env, unit: nat): (r: State)
    requires Valid(s) && unit <= Units
    ensures Valid(r)
    decreases Units - unit
  {
    if unit == Units then s
    else
      ResetUnitsFrom(SweepUnit(s, env, unit), env, unit + 1)
  }

  /** fsdrive_reset */
  function Reset(s: State, env: Env): (r: State)
    requires Valid(s)
    ensures Valid(r)
  {
    ResetUnitsFrom(s, env, 0)
  }

  /** The entry points the bus-trap layer calls. */
  datatype Op =
    | OpenOp(device: nat, secondary: Byte)
    | CloseOp(device: nat, secondary: Byte)
    | ListenTalkOp(device: nat, secondary: Byte)
    | UnlistenOp(device: nat, secondary: Byte)
    | UntalkOp(device: nat, secondary: Byte)
    | WriteOp(device: nat, secondary: Byte, data: Byte)
    | ReadOp(device: nat, secondary: Byte)
    | ResetOp

  function Apply(s: State, env: Env, op: Op): (r: State)
    requires Valid(s)
    ensures Valid(r)
  {
    match op
    case OpenOp(d, sa) => BeginOpen(s, d, sa).state
    case CloseOp(d, sa) => Close(s, env, d, sa).state
    case ListenTalkOp(d, sa) => ListenTalk(s, env, d, sa).state
    case UnlistenOp(d, sa) => Unlisten(s, env, d, sa).state
    case UntalkOp(d, sa) => Untalk(s, d, sa).state
    case WriteOp(d, sa, b) => Write(s, env, d, sa, b).state
    case ReadOp(d, sa) => Read(s, env, d, sa).state
    case ResetOp => Reset(s, env)
  }
}
