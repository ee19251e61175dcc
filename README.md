# fsdrive: the filesystem serial layer of VICE, modelled in Dafny

`vice/src/serial/fsdrive.c` is the layer between the emulator's serial-bus
traps and the per-device drivers (`openf`, `closef`, `putf`, `getf`,
`flushf`, `listenf`) of the virtual disk drives. It handles the bus
commands under attention, which are OPEN CHANNEL (0x6N), CLOSE FILE (0xEN)
and OPEN FILE (0xFN, with the "delayed close"). It collects a file name
byte by byte in one shared buffer (`SerialBuffer`/`SerialPtr`, at most 255
bytes). It also forwards data bytes, reads bytes through a one-byte
read-ahead slot, and closes every open channel on reset.

The project has four modules:

- `SerialTypes` (serial_types.dfy) holds the values exchanged with the rest of the
  emulator:
  - channel states;
  - the driver calls;
  - the replies of the drivers;
  - the device table (`inuse`, and whether `flushf` and `listenf` exist);
  - the conversion of an `int` status to `uint8_t`.
- `FsDriveModel` (fsdrive_model.dfy) describes each entry point as a function
  on an explicit state:
  - `isopen`, `nextok` and `nextbyte` for 16 units × 16 channels, laid out
    flat;
  - the name buffer and its length;
  - `trace`, the record of every driver call in order.

  The drivers are an oracle, `Env.respond`. Each reply is a function of the
  calls made so far and of the call itself. So a driver may answer
  differently each time, but the model stays deterministic.
- `FsDrive` (fsdrive.dfy) is the layer as the C code has it. Class
  `SerialLayer` keeps its tables and its name buffer in arrays, updates
  them in place, and calls drivers one at a time. It has the same loops:
  - the replay of the collected name to `putf`;
  - the two nested loops of `fsdrive_reset`.

  Every method is proved to leave exactly the state, and return exactly the
  status, that its `FsDriveModel` function gives.
- `FsDriveProperties` (fsdrive_properties.dfy) proves what the layer promises
  about those functions:
  - the read-ahead reset;
  - the NULL-name open followed by an in-order replay of the name;
  - the close;
  - the delayed close, and the cleanup when the reopen fails;
  - the truncation of names at 255 bytes;
  - 0x83 for an absent device;
  - a single `getf` per read;
  - reset calls `closef` exactly once per open channel of each device in
    use;
  - no entry point takes a closed channel straight to open.

## Model

| member | source | states |
|---|---|---|
| SerialTypes.ToByte | vice/src/serial/fsdrive.c:114 | the `(uint8_t)` conversion of a driver's `int` status: congruent to it modulo 256, and unchanged for 0..255 |
| FsDriveModel.Initial | vice/src/serial/fsdrive.c:57-58 | the zero-initialised statics: every channel closed, no read-ahead byte, empty name, no driver call made |
| FsDriveModel.OpenChannel | vice/src/serial/fsdrive.c:110-125 | OPEN CHANNEL keeps the tables at 16×16 and the name length at 255 or less |
| FsDriveModel.CloseFile | vice/src/serial/fsdrive.c:130-134 | CLOSE FILE keeps the state well formed |
| FsDriveModel.Reopen | vice/src/serial/fsdrive.c:160-173 | the delayed close (close, reopen, close again on failure) keeps the state well formed |
| FsDriveModel.OpenFile | vice/src/serial/fsdrive.c:139-179 | OPEN FILE keeps the state well formed |
| FsDriveModel.SerialCommand | vice/src/serial/fsdrive.c:73-186 | serialcommand keeps the state well formed |
| FsDriveModel.BeginOpen | vice/src/serial/fsdrive.c:190-210 | fsdrive_open calls no driver and reports no status |
| FsDriveModel.Close | vice/src/serial/fsdrive.c:212-218 | fsdrive_close always reports a status |
| FsDriveModel.ListenTalk | vice/src/serial/fsdrive.c:220-239 | fsdrive_listentalk always reports a status |
| FsDriveModel.Unlisten | vice/src/serial/fsdrive.c:241-263 | fsdrive_unlisten keeps the state well formed |
| FsDriveModel.Untalk | vice/src/serial/fsdrive.c:265-267 | fsdrive_untalk changes nothing and reports nothing |
| FsDriveModel.Write | vice/src/serial/fsdrive.c:269-298 | fsdrive_write keeps the name at 255 bytes or less |
| FsDriveModel.Read | vice/src/serial/fsdrive.c:300-336 | fsdrive_read keeps the state well formed |
| FsDriveModel.ResetChannel | vice/src/serial/fsdrive.c:348-352 | one step of the reset sweep keeps the state well formed |
| FsDriveModel.ResetChannelsFrom | vice/src/serial/fsdrive.c:347-353 | the inner reset loop keeps the state well formed |
| FsDriveModel.SweepUnit | vice/src/serial/fsdrive.c:345-354 | one pass of the outer reset loop keeps the state well formed |
| FsDriveModel.ResetUnitsFrom | vice/src/serial/fsdrive.c:344-355 | the outer reset loop keeps the state well formed |
| FsDriveModel.Reset | vice/src/serial/fsdrive.c:338-356 | fsdrive_reset keeps the state well formed |
| FsDriveModel.Apply | vice/src/serial/fsdrive.c:190-356 | any entry point keeps the state well formed |
| FsDrive.SerialLayer.constructor | vice/src/serial/fsdrive.c:57-58 | the arrays start as the zero-initialised statics (`FsDriveModel.Initial`) |
| FsDrive.SerialLayer.Invoke | vice/src/serial/fsdrive.c:114 | a driver call is appended to the record and answered by the drivers given the calls before it |
| FsDrive.SerialLayer.Flush | vice/src/serial/fsdrive.c:122-124 | `flushf` is called once if the driver has it, otherwise nothing is called |
| FsDrive.SerialLayer.ReplayName | vice/src/serial/fsdrive.c:116-119 | the loop hands `SerialBuffer[0..SerialPtr)` to `putf` one byte at a time, in order |
| FsDrive.SerialLayer.OpenChannel | vice/src/serial/fsdrive.c:110-125 | the in-place OPEN CHANNEL leaves the state and status of `FsDriveModel.OpenChannel` |
| FsDrive.SerialLayer.CloseFile | vice/src/serial/fsdrive.c:130-134 | the in-place CLOSE FILE leaves the state and status of `FsDriveModel.CloseFile` |
| FsDrive.SerialLayer.Reopen | vice/src/serial/fsdrive.c:160-173 | the in-place delayed close leaves the state and status of `FsDriveModel.Reopen` |
| FsDrive.SerialLayer.OpenFile | vice/src/serial/fsdrive.c:139-179 | the in-place OPEN FILE leaves the state and status of `FsDriveModel.OpenFile` |
| FsDrive.SerialLayer.SerialCommand | vice/src/serial/fsdrive.c:73-186 | the in-place serialcommand leaves the state and status of `FsDriveModel.SerialCommand` |
| FsDrive.SerialLayer.BeginOpen | vice/src/serial/fsdrive.c:190-210 | fsdrive_open in place agrees with `FsDriveModel.BeginOpen` |
| FsDrive.SerialLayer.Close | vice/src/serial/fsdrive.c:212-218 | fsdrive_close in place agrees with `FsDriveModel.Close` |
| FsDrive.SerialLayer.ListenTalk | vice/src/serial/fsdrive.c:220-239 | fsdrive_listentalk in place agrees with `FsDriveModel.ListenTalk` |
| FsDrive.SerialLayer.Unlisten | vice/src/serial/fsdrive.c:241-263 | fsdrive_unlisten in place agrees with `FsDriveModel.Unlisten` |
| FsDrive.SerialLayer.Untalk | vice/src/serial/fsdrive.c:265-267 | fsdrive_untalk reports no status |
| FsDrive.SerialLayer.Write | vice/src/serial/fsdrive.c:269-298 | fsdrive_write in place agrees with `FsDriveModel.Write` |
| FsDrive.SerialLayer.Read | vice/src/serial/fsdrive.c:300-336 | fsdrive_read in place returns the byte and status of `FsDriveModel.Read` and leaves its state |
| FsDrive.SerialLayer.ResetChannel | vice/src/serial/fsdrive.c:348-352 | one step of the reset sweep in place agrees with `FsDriveModel.ResetChannel` |
| FsDrive.SerialLayer.ResetChannels | vice/src/serial/fsdrive.c:347-353 | the inner reset loop agrees with `FsDriveModel.ResetChannelsFrom` from channel 0 |
| FsDrive.SerialLayer.ResetUnit | vice/src/serial/fsdrive.c:345-354 | one pass of the outer loop agrees with `FsDriveModel.SweepUnit` |
| FsDrive.SerialLayer.Reset | vice/src/serial/fsdrive.c:338-356 | fsdrive_reset in place agrees with `FsDriveModel.Reset` |
| FsDriveProperties.ReplayInOrder | vice/src/serial/fsdrive.c:116-119 | the replay makes one `putf` per name byte: the i-th call carries the i-th byte |
| FsDriveProperties.CommandResetsReadAhead | vice/src/serial/fsdrive.c:94-183 | every command but OPEN CHANNEL clears the channel's read-ahead flag, and OPEN CHANNEL clears none. LISTEN, TALK and unknown commands do nothing else and report 0 |
| FsDriveProperties.OpenChannelReplaysName | vice/src/serial/fsdrive.c:110-125 | on a channel awaiting its name, OPEN CHANNEL opens it and calls `openf` with a NULL name, reporting its status. It then calls `putf` with each collected byte in order and empties the buffer; `flushf`, if any, comes last |
| FsDriveProperties.OpenChannelOtherwiseIdle | vice/src/serial/fsdrive.c:112-124 | on any other channel, OPEN CHANNEL only calls `flushf` (if present) and reports 0 |
| FsDriveProperties.CloseFileCloses | vice/src/serial/fsdrive.c:130-134 | CLOSE FILE closes the channel whatever its state and calls `closef` exactly once. It reports `closef`'s status and leaves the name buffer alone |
| FsDriveProperties.OpenFileDelayedClose | vice/src/serial/fsdrive.c:139-179 | OPEN FILE closes and reopens exactly when the channel is not closed and a name was collected or the channel is 15. Then `closef` comes before `openf`(name, length), the name is NUL-terminated and the buffer emptied. Otherwise nothing changes but `flushf`, and the status is 0 |
| FsDriveProperties.OpenFileFailureCleanup | vice/src/serial/fsdrive.c:160-179 | a reopen whose status byte is nonzero ends closed, with exactly one more `closef`; a zero status leaves the channel open. `flushf` ends both |
| FsDriveProperties.CommandNeverOpensClosedChannel | vice/src/serial/fsdrive.c:110-179 | no command takes a closed channel to open |
| FsDriveProperties.BeginOpenAwaitsName | vice/src/serial/fsdrive.c:209 | fsdrive_open sets only the channel to awaiting-name |
| FsDriveProperties.ListenTalkNotifiesAfterCommand | vice/src/serial/fsdrive.c:220-239 | fsdrive_listentalk reports the command's status. It then calls `listenf` only for units 8 and up whose driver has it |
| FsDriveProperties.UnlistenCases | vice/src/serial/fsdrive.c:241-263 | for OPEN FILE or channel 15, unlisten runs the command, reports its status and clears the read-ahead flag. Otherwise it reports nothing and only calls `listenf`, and only for units 8 and up |
| FsDriveProperties.WriteToAbsentDevice | vice/src/serial/fsdrive.c:295-297 | a device not in use gets 0x83, no driver call and no change |
| FsDriveProperties.WriteCollectsName | vice/src/serial/fsdrive.c:284-289 | a byte for a channel awaiting its name is appended while the name is under 255 bytes and dropped after. Nothing is reported and no driver is called |
| FsDriveProperties.WriteForwardsToDriver | vice/src/serial/fsdrive.c:290-294 | any other byte goes to `putf` once, and `putf`'s status is reported |
| FsDriveProperties.WritesTruncateName | vice/src/serial/fsdrive.c:284-289 | any number of name bytes leaves the first 255 of the name followed by them, with no status and no driver call |
| FsDriveProperties.ReadFetchesOnce | vice/src/serial/fsdrive.c:300-336 | read calls `getf` exactly once. It returns the byte `getf` stored, or the old read-ahead byte if it stored none, reports `getf`'s status and clears the read-ahead flag |
| FsDriveProperties.ResetChannelsEffect | vice/src/serial/fsdrive.c:347-353 | the inner reset loop closes the unit's channels from the given one on. It calls `closef` exactly once for each of them that was not closed, and changes nothing else |
| FsDriveProperties.ResetUnitsFrame | vice/src/serial/fsdrive.c:344-355 | the outer reset loop only appends driver calls and never touches the read-ahead tables or the name |
| FsDriveProperties.ResetUnitsTable | vice/src/serial/fsdrive.c:344-355 | the outer reset loop closes every channel of every unit in use from the given unit on, and no other channel |
| FsDriveProperties.ResetUnitsCloses | vice/src/serial/fsdrive.c:344-355 | the outer reset loop's calls are exactly one `closef` per channel that was not closed on each unit in use |
| FsDriveProperties.UnitSweep | vice/src/serial/fsdrive.c:345-354 | one pass of the outer loop calls `closef` once per open channel of that unit if it is in use, and nothing otherwise |
| FsDriveProperties.UnitSweepTable | vice/src/serial/fsdrive.c:345-354 | one pass of the outer loop closes that unit's channels if it is in use, and no others |
| FsDriveProperties.ResetClosesEachOpenChannelOnce | vice/src/serial/fsdrive.c:338-356 | reset calls `closef` exactly once for every channel that is not closed on every device in use, and no other driver function. Those channels end closed; every other channel, the read-ahead tables and the name stay as they were |
| FsDriveProperties.ClosedChannelNeverOpens | vice/src/serial/fsdrive.c:190-356 | no entry point takes a closed channel straight to open |
| FsDriveProperties.OpenChannelCommand | vice/src/serial/fsdrive.c:95-125 | a secondary address 0x6N runs OPEN CHANNEL on channel N of the device's unit |
| FsDriveProperties.NameReplayScenario | vice/src/serial/fsdrive.c:110-125 | writing "TEST" to channel 2 of device 8 while it awaits its name, then OPEN CHANNEL 0x62, gives `openf`(NULL) followed by `putf` of 'T', 'E', 'S', 'T', then `flushf` |

## Left out

- Logging, `DBG` and `fsdrive_init` (lines 358-362): they only register and write log messages.
- The `#ifndef DELAYEDCLOSE` code (lines 142-158 and 193-208) is not modelled. `DELAYEDCLOSE` is defined at line 70. The `#if 0` blocks of `fsdrive_read` are not modelled either.
- The drivers, `file_system_get_vdrive` and `serial_device_get` are not part of this model. Drivers are the oracle `Env.respond`, which sees the calls made so far. The device table is `Env.device`, and the vdrive handle is `Target`.
- Drivers are assumed not to write into `SerialBuffer`. `openf` is only handed the name as a value.
- Statuses are handed back to the caller rather than through the `st_func` callback. So the model does not say that fsdrive_listentalk calls `st_func` before `listenf`; it only says that the status is the command's.
- `SERIAL_MAXDEVICES` is taken to be 16. serial.h is not part of this model, and `device & 0x0f` never reaches further.
- Handles: `fsdrive_reset` asks for a vdrive handle for every unit in use, below 8 too (line 349). The other paths use NULL below 8. The model passes `VDrive(unit)` on reset and `NullTarget` elsewhere. It does not model what `file_system_get_vdrive` returns for such units.
- Channel life cycle: the code, not the documented cycle CLOSED → AWAITING → OPEN → CLOSED, is followed. `fsdrive_open` makes a channel in any state await its name (line 209). CLOSE FILE closes a channel in any state (line 132). So the only life-cycle property proved is that no entry point opens a closed channel in one step.
