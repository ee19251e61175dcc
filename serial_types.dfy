/** Values exchanged between the filesystem serial layer (fsdrive) and the
    world around it: the bus-trap layer that calls it, and the per-device
    driver table (openf, closef, putf, getf, flushf, listenf) it calls. */
module SerialTypes {

  /** An 8-bit quantity: a secondary address, a data byte or a status byte. */
  type Byte = b: int | 0 <= b < 256

  /** C's conversion of a driver's `int` status to `uint8_t`: the value
      modulo 256 (so 256 reads as success, and -1 as 0xFF). */
  function ToByte(x: int): (b: Byte)
    ensures (x - b) % 256 == 0
    ensures 0 <= x < 256 ==> b == x
  {
    x % 256
  }

  datatype Option<T> = None | Some(value: T)

  /** The tri-state ISOPEN_CLOSED / ISOPEN_AWAITING_NAME / ISOPEN_OPEN of a channel. */
  datatype ChannelState = Closed | AwaitingName | Open

  /** The `vdrive` handle handed to a driver: NULL, or the handle
      `file_system_get_vdrive` gives for a unit (drive 0 of that unit). */
  datatype Target = NullTarget | VDrive(unit: nat)

  /** One invocation of a function of a device's driver table, with its arguments.
      `name` is None when the driver is handed a NULL name. */
  datatype DriverCall =
    | OpenCall(unit: nat, target: Target, name: Option<seq<Byte>>, length: nat, channel: nat)
    | CloseCall(unit: nat, target: Target, channel: nat)
    | PutCall(unit: nat, target: Target, data: Byte, channel: nat)
    | GetCall(unit: nat, target: Target, channel: nat)
    | FlushCall(unit: nat, target: Target, channel: nat)
    | ListenCall(unit: nat, target: Target, channel: nat)

  /** What a driver function gives back: its `int` status and, for getf,
      the byte it stored through its pointer argument (None: it stored nothing).
      The status of flushf and listenf (both `void`) is never looked at. */
  datatype Reply = Reply(status: int, fetched: Option<Byte>)

  /** The externally maintained part of a device's `serial_t` entry: whether
      a device is attached (`inuse`) and whether its driver table has the
      optional `flushf` and `listenf` entries. */
  datatype Device = Device(inUse: bool, hasFlush: bool, hasListen: bool)

  /** Everything fsdrive consults but does not own. `device` is the device
      table indexed by unit; `respond` is the drivers' behaviour: the reply to
      a call, given every call the drivers received before it. */
  datatype Env = Env(device: nat -> Device, respond: (seq<DriverCall>, DriverCall) -> Reply)
}
