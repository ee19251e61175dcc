/** The filesystem serial layer as the program has it: tables and a name
    buffer updated in place, and driver calls made one at a time. Every
    entry point is proved to do exactly what its function in FsDriveModel
    says; the properties of those functions are in FsDriveProperties. */
module FsDrive {
  import opened SerialTypes
  import M = FsDriveModel

  class SerialLayer {
    /** isopen[], nextok[] and nextbyte[] of every device, slot unit * 16 + channel. */
    const isopen: array<ChannelState>
    const nextok: array<bool>
    const nextbyte: array<Byte>
    /** SerialBuffer and SerialPtr: the one name being collected on the bus. */
    const serialBuffer: array<Byte>
    var serialPtr: nat
    /** Every driver call made so far. */
    var trace: seq<DriverCall>

    ghost predicate Valid()
      reads this
    {
      isopen.Length == M.Slots && nextok.Length == M.Slots && nextbyte.Length == M.Slots &&
      serialBuffer.Length == M.NameLength + 1 && serialPtr <= M.NameLength &&
      nextbyte != serialBuffer
    }

    ghost function Abstract(): M.State
      reads this, isopen, nextok, nextbyte, serialBuffer
    {
      M.State(isopen[..], nextok[..], nextbyte[..], serialBuffer[..], serialPtr, trace)
    }

    constructor ()
      ensures Valid() && Abstract() == M.Initial()
    {
      isopen := new ChannelState[256](_ => Closed);
      nextok := new bool[256](_ => false);
      nextbyte := new Byte[256](_ => 0);
      serialBuffer := new Byte[256](_ => 0);
      serialPtr := 0;
      trace := [];
    }

    /** Calls a driver function: the call is recorded and the drivers answer it. */
    method Invoke(env: Env, call: DriverCall) returns (reply: Reply)
      modifies this`trace
      ensures trace == old(trace) + [call] && reply == env.respond(old(trace), call)
    {
      reply := env.respond(trace, call);
      trace := trace + [call];
    }

    /** Calls the device's flushf, when its driver table has one. */
    method Flush(env: Env, unit: nat, channel: nat)
      modifies this`trace
      ensures trace == old(trace) + M.FlushCalls(env, unit, channel)
    {
      if env.device(unit).hasFlush {
        var _ := Invoke(env, FlushCall(unit, M.TargetOf(unit), channel));
      }
    }

    /** Hands the collected name to a channel's putf, one byte at a time. */
    method ReplayName(env: Env, unit: nat, channel: nat)
      requires Valid()
      modifies this`trace
      ensures trace == old(trace) + M.Replay(unit, M.TargetOf(unit), serialBuffer[..serialPtr], channel)
    {
      var vdrive := if unit >= 8 then VDrive(unit) else NullTarget;
      var i := 0;
      while i < serialPtr
        invariant 0 <= i <= serialPtr
        invariant trace == old(trace) + M.Replay(unit, vdrive, serialBuffer[..i], channel)
      {
        var _ := Invoke(env, PutCall(unit, vdrive, serialBuffer[i], channel));
        assert serialBuffer[..i + 1][..i] == serialBuffer[..i];
        i := i + 1;
      }
    }

    /** OPEN CHANNEL (0x60) */
    method OpenChannel(env: Env, unit: nat, channel: nat) returns (st: Byte)
      requires Valid() && unit < M.Units && channel < M.Channels
      modifies this, isopen
      ensures Valid()
      ensures var r := M.OpenChannel(old(Abstract()), env, unit, channel);
              Abstract() == r.state && st == r.status
    {
      var k := unit * 16 + channel;
      var vdrive := if unit >= 8 then VDrive(unit) else NullTarget;
      st := 0;
      if isopen[k] == AwaitingName {
        isopen[k] := Open;
        var reply := Invoke(env, OpenCall(unit, vdrive, None, 0, channel));
        st := ToByte(reply.status);
        ReplayName(env, unit, channel);
        serialPtr := 0;
      }
      Flush(env, unit, channel);
    }

    /** CLOSE FILE (0xE0) */
    method CloseFile(env: Env, unit: nat, channel: nat) returns (st: Byte)
      requires Valid() && unit < M.Units && channel < M.Channels
      modifies this`trace, isopen
      ensures Valid()
      ensures var r := M.CloseFile(old(Abstract()), env, unit, channel);
              Abstract() == r.state && st == r.status
    {
      var vdrive := if unit >= 8 then VDrive(unit) else NullTarget;
      isopen[unit * 16 + channel] := Closed;
      var reply := Invoke(env, CloseCall(unit, vdrive, channel));
      st := ToByte(reply.status);
    }

    /** The delayed close of OPEN FILE: close, reopen under the collected name,
        and close again if that open failed. */
    method Reopen(env: Env, unit: nat, channel: nat) returns (st: Byte)
      requires Valid() && unit < M.Units && channel < M.Channels
      modifies this, isopen, serialBuffer
      ensures Valid()
      ensures var r := M.Reopen(old(Abstract()), env, unit, channel);
              Abstract() == r.state && st == r.status
    {
      var k := unit * 16 + channel;
      var vdrive := if unit >= 8 then VDrive(unit) else NullTarget;
      var _ := Invoke(env, CloseCall(unit, vdrive, channel));
      isopen[k] := Open;
      serialBuffer[serialPtr] := 0;
      assert serialBuffer[..serialPtr] == old(serialBuffer[..serialPtr]);
      var reply := Invoke(env, OpenCall(unit, vdrive, Some(serialBuffer[..serialPtr]), serialPtr, channel));
      st := ToByte(reply.status);
      serialPtr := 0;
      if st != 0 {
        isopen[k] := Closed;
        var _ := Invoke(env, CloseCall(unit, vdrive, channel));
      }
    }

    /** OPEN FILE (0xF0), with the delayed close */
    method OpenFile(env: Env, unit: nat, channel: nat) returns (st: Byte)
      requires Valid() && unit < M.Units && channel < M.Channels
      modifies this, isopen, serialBuffer
      ensures Valid()
      ensures var r := M.OpenFile(old(Abstract()), env, unit, channel);
              Abstract() == r.state && st == r.status
    {
      var k := unit * 16 + channel;
      st := 0;
      if isopen[k] != Closed && (serialPtr != 0 || channel == 15) {
        st := Reopen(env, unit, channel);
      }
      Flush(env, unit, channel);
    }

    /** serialcommand */
    method SerialCommand(env: Env, device: nat, secondary: Byte) returns (st: Byte)
      requires Valid()
      modifies this, isopen, nextok, serialBuffer
      ensures Valid()
      ensures var r := M.SerialCommand(old(Abstract()), env, device, secondary);
              Abstract() == r.state && st == r.status
    {
      var unit := device % 16;
      var channel := secondary % 16;
      var cmd := secondary / 16 * 16;
      if cmd != 0x60 {
        nextok[unit * 16 + channel] := false;
      }
      if cmd == 0x60 {
        st := OpenChannel(env, unit, channel);
      } else if cmd == 0xE0 {
        st := CloseFile(env, unit, channel);
      } else if cmd == 0xF0 {
        st := OpenFile(env, unit, channel);
      } else {
        // 0x20-0x50 (LISTEN, TALK) and unknown commands
        st := 0;
      }
    }

    /** fsdrive_open */
    method BeginOpen(device: nat, secondary: Byte) returns (report: Option<Byte>)
      requires Valid()
      modifies isopen
      ensures Valid()
      ensures var r := M.BeginOpen(old(Abstract()), device, secondary);
              Abstract() == r.state && report == r.report
    {
      isopen[(device % 16) * 16 + secondary % 16] := AwaitingName;
      report := None;
    }

    /** fsdrive_close */
    method Close(env: Env, device: nat, secondary: Byte) returns (report: Option<Byte>)
      requires Valid()
      modifies this, isopen, nextok, serialBuffer
      ensures Valid()
      ensures var r := M.Close(old(Abstract()), env, device, secondary);
              Abstract() == r.state && report == r.report
    {
      var st := SerialCommand(env, device, secondary);
      report := Some(st);
    }

    /** fsdrive_listentalk */
    method ListenTalk(env: Env, device: nat, secondary: Byte) returns (report: Option<Byte>)
      requires Valid()
      modifies this, isopen, nextok, serialBuffer
      ensures Valid()
      ensures var r := M.ListenTalk(old(Abstract()), env, device, secondary);
              Abstract() == r.state && report == r.report
    {
      var st := SerialCommand(env, device, secondary);
      report := Some(st);
      var unit := device % 16;
      if env.device(unit).hasListen {
        if unit >= 8 {
          var _ := Invoke(env, ListenCall(unit, VDrive(unit), secondary % 16));
        }
      }
    }

    /** fsdrive_unlisten */
    method Unlisten(env: Env, device: nat, secondary: Byte) returns (report: Option<Byte>)
      requires Valid()
      modifies this, isopen, nextok, serialBuffer
      ensures Valid()
      ensures var r := M.Unlisten(old(Abstract()), env, device, secondary);
              Abstract() == r.state && report == r.report
    {
      var unit := device % 16;
      report := None;
      if secondary / 16 * 16 == 0xF0 || secondary % 16 == 0x0F {
        var st := SerialCommand(env, device, secondary);
        report := Some(st);
        nextok[unit * 16 + secondary % 16] := false;
      } else if env.device(unit).hasListen {
        if unit >= 8 {
          var _ := Invoke(env, ListenCall(unit, VDrive(unit), secondary % 16));
        }
      }
    }

    /** fsdrive_untalk: nothing happens and no status is reported. */
    method Untalk(device: nat, secondary: Byte) returns (report: Option<Byte>)
      ensures report == None
    {
      report := None;
    }

    /** fsdrive_write */
    method Write(env: Env, device: nat, secondary: Byte, data: Byte) returns (report: Option<Byte>)
      requires Valid()
      modifies this, serialBuffer
      ensures Valid()
      ensures var r := M.Write(old(Abstract()), env, device, secondary, data);
              Abstract() == r.state && report == r.report
    {
      var unit := device % 16;
      var channel := secondary % 16;
      var vdrive := if unit >= 8 then VDrive(unit) else NullTarget;
      if env.device(unit).inUse {
        if isopen[unit * 16 + channel] == AwaitingName {
          report := None;
          if serialPtr < M.NameLength {
            serialBuffer[serialPtr] := data;
            serialPtr := serialPtr + 1;
          }
        } else {
          var reply := Invoke(env, PutCall(unit, vdrive, data, channel));
          report := Some(ToByte(reply.status));
        }
      } else {
        report := Some(M.DeviceNotPresent);
      }
    }

    /** fsdrive_read: the byte returned; `status` goes to the callback. */
    method Read(env: Env, device: nat, secondary: Byte) returns (data: Byte, status: Byte)
      requires Valid()
      modifies this, nextok, nextbyte
      ensures Valid()
      ensures var r := M.Read(old(Abstract()), env, device, secondary);
              Abstract() == r.state && data == r.data && status == r.status
    {
      var unit := device % 16;
      var channel := secondary % 16;
      var k := unit * 16 + channel;
      var vdrive := if unit >= 8 then VDrive(unit) else NullTarget;
      var reply := Invoke(env, GetCall(unit, vdrive, channel));
      if reply.fetched.Some? {
        nextbyte[k] := reply.fetched.value;
      }
      data := nextbyte[k];
      nextok[k] := false;
      status := ToByte(reply.status);
    }

    /** One iteration of the inner loop of fsdrive_reset: a channel that is not
        closed is marked closed and its driver's closef is called. */
    method ResetChannel(env: Env, unit: nat, channel: nat)
      requires Valid() && unit < M.Units && channel < M.Channels
      modifies this`trace, isopen
      ensures Valid()
      ensures Abstract() == M.ResetChannel(old(Abstract()), unit, channel)
    {
      var k := unit * 16 + channel;
      if isopen[k] != Closed {
        isopen[k] := Closed;
        var _ := Invoke(env, CloseCall(unit, VDrive(unit), channel));
      }
    }

    /** The inner loop of fsdrive_reset: every channel of one unit. */
    method ResetChannels(env: Env, unit: nat)
      requires Valid() && unit < M.Units
      modifies this`trace, isopen
      ensures Valid()
      ensures Abstract() == M.ResetChannelsFrom(old(Abstract()), unit, 0)
    {
      ghost var swept := M.ResetChannelsFrom(Abstract(), unit, 0);
      var channel := 0;
      while channel < M.Channels
        invariant 0 <= channel <= M.Channels && Valid()
        invariant M.ResetChannelsFrom(Abstract(), unit, channel) == swept
      {
        ResetChannel(env, unit, channel);
        channel := channel + 1;
      }
    }

    /** One iteration of the outer loop of fsdrive_reset: the channels of a
        unit whose device is in use are swept. */
    method ResetUnit(env: Env, unit: nat)
      requires Valid() && unit < M.Units
      modifies this`trace, isopen
      ensures Valid()
      ensures Abstract() == M.SweepUnit(old(Abstract()), env, unit)
    {
      if env.device(unit).inUse {
        ResetChannels(env, unit);
      }
    }

    /** fsdrive_reset */
    method Reset(env: Env)
      requires Valid()
      modifies this`trace, isopen
      ensures Valid()
      ensures Abstract() == M.Reset(old(Abstract()), env)
    {
      ghost var swept := M.Reset(Abstract(), env);
      var unit := 0;
      while unit < M.Units
        invariant 0 <= unit <= M.Units && Valid()
        invariant M.ResetUnitsFrom(Abstract(), env, unit) == swept
      {
        ResetUnit(env, unit);
        unit := unit + 1;
      }
    }
  }
}
