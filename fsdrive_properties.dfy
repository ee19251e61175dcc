/** What the filesystem serial layer promises, proved of the functions in
    FsDriveModel (and so, through their ensures clauses, of the methods of
    FsDrive.SerialLayer). */
module FsDriveProperties {
  import opened SerialTypes
  import opened FsDriveModel

  function Min(a: int, b: int): int { if a <= b then a else b }

  // ---------------------------------------------------------------------
  // serialcommand

  /** Replay hands the driver every byte, once, in order. */
  lemma {:induction false} ReplayInOrder(unit: nat, target: Target, bytes: seq<Byte>, channel: nat)
    ensures |Replay(unit, target, bytes, channel)| == |bytes|
    ensures forall i | 0 <= i < |bytes| ::
              Replay(unit, target, bytes, channel)[i] == PutCall(unit, target, bytes[i], channel)
  {
    if bytes != [] {
      ReplayInOrder(unit, target, bytes[..|bytes| - 1], channel);
    }
  }

  /** Every command other than OPEN CHANNEL drops the channel's read-ahead
      byte; OPEN CHANNEL leaves the read-ahead flags alone. LISTEN, TALK and
      unknown commands do nothing else: no driver call, status 0. */
  lemma CommandResetsReadAhead(s: State, env: Env, device: nat, secondary: Byte)
    requires Valid(s)
    ensures var k := Slot(UnitOf(device), ChannelOf(secondary));
            var r := SerialCommand(s, env, device, secondary);
            && (CommandOf(secondary) != 0x60 ==> !r.state.nextok[k])
            && (CommandOf(secondary) == 0x60 ==> r.state.nextok == s.nextok)
            && (CommandOf(secondary) !in {0x60, 0xE0, 0xF0} ==>
                  r == Outcome(s.(nextok := s.nextok[k := false]), 0))
  {
  }

  /** OPEN CHANNEL on a channel awaiting its name: the channel opens, openf is
      called once with a NULL name and its status is the result, then putf
      receives each collected byte in order, the buffer is emptied, and flushf
      (if present) comes last. */
  lemma OpenChannelReplaysName(s: State, env: Env, device: nat, secondary: Byte)
    requires Valid(s) && CommandOf(secondary) == 0x60
    requires s.isopen[Slot(UnitOf(device), ChannelOf(secondary))] == AwaitingName
    ensures var unit, channel := UnitOf(device), ChannelOf(secondary);
            var t := TargetOf(unit);
            var open := OpenCall(unit, t, None, 0, channel);
            var r := SerialCommand(s, env, device, secondary);
            var n := |s.trace|;
            && r.state.isopen == s.isopen[Slot(unit, channel) := Open]
            && r.state.ptr == 0 && r.state.buffer == s.buffer
            && r.state.nextok == s.nextok && r.state.nextbyte == s.nextbyte
            && r.status == ToByte(env.respond(s.trace, open).status)
            && |r.state.trace| == n + 1 + s.ptr + |FlushCalls(env, unit, channel)|
            && r.state.trace[..n + 1] == s.trace + [open]
            && (forall i | 0 <= i < s.ptr :: r.state.trace[n + 1 + i] == PutCall(unit, t, s.buffer[i], channel))
            && r.state.trace[n + 1 + s.ptr..] == FlushCalls(env, unit, channel)
  {
    var unit, channel := UnitOf(device), ChannelOf(secondary);
    var t := TargetOf(unit);
    var open := OpenCall(unit, t, None, 0, channel);
    var r := SerialCommand(s, env, device, secondary);
    assert r.state.trace == s.trace + [open] + Replay(unit, t, Name(s), channel) + FlushCalls(env, unit, channel);
    ReplayLayout(s.trace, open, unit, t, Name(s), channel, FlushCalls(env, unit, channel));
  }

  /** Where each call sits in a trace made of a prefix, one call, the putf
      calls of a replay and a tail. */
  lemma ReplayLayout(prefix: seq<DriverCall>, head: DriverCall, unit: nat, t: Target, bytes: seq<Byte>,
                     channel: nat, tail: seq<DriverCall>)
    ensures var tr := prefix + [head] + Replay(unit, t, bytes, channel) + tail;
            var n := |prefix|;
            && |tr| == n + 1 + |bytes| + |tail|
            && tr[..n + 1] == prefix + [head]
            && (forall i | 0 <= i < |bytes| :: tr[n + 1 + i] == PutCall(unit, t, bytes[i], channel))
            && tr[n + 1 + |bytes|..] == tail
  {
    ReplayInOrder(unit, t, bytes, channel);
    ThreeParts(prefix + [head], Replay(unit, t, bytes, channel), tail);
  }

  /** Slicing a sequence made of three parts gives the parts back. */
  lemma ThreeParts<T>(a: seq<T>, b: seq<T>, c: seq<T>)
    ensures (a + b + c)[..|a|] == a && (a + b + c)[|a| + |b|..] == c
    ensures forall i | 0 <= i < |b| :: (a + b + c)[|a| + i] == b[i]
  {
    assert (a + b + c)[..|a|] == a;
    assert (a + b + c)[|a| + |b|..] == c;
  }

  /** OPEN CHANNEL on a channel in any other state changes no channel and
      not the buffer; it only calls flushf, if present, and reports 0. */
  lemma OpenChannelOtherwiseIdle(s: State, env: Env, device: nat, secondary: Byte)
    requires Valid(s) && CommandOf(secondary) == 0x60
    requires s.isopen[Slot(UnitOf(device), ChannelOf(secondary))] != AwaitingName
    ensures var r := SerialCommand(s, env, device, secondary);
            r == Outcome(s.(trace := s.trace + FlushCalls(env, UnitOf(device), ChannelOf(secondary))), 0)
  {
  }

  /** CLOSE FILE closes the channel whatever its state, calls closef once
      and reports its status; the name buffer is untouched. */
  lemma CloseFileCloses(s: State, env: Env, device: nat, secondary: Byte)
    requires Valid(s) && CommandOf(secondary) == 0xE0
    ensures var unit, channel := UnitOf(device), ChannelOf(secondary);
            var k := Slot(unit, channel);
            var close := CloseCall(unit, TargetOf(unit), channel);
            var r := SerialCommand(s, env, device, secondary);
            && r.state.isopen == s.isopen[k := Closed]
            && r.state.trace == s.trace + [close]
            && r.status == ToByte(env.respond(s.trace, close).status)
            && r.state.buffer == s.buffer && r.state.ptr == s.ptr
            && r.state.nextok == s.nextok[k := false] && r.state.nextbyte == s.nextbyte
  {
  }

  /** OPEN FILE, delayed close. It closes and reopens exactly when the channel
      is not closed and a name was collected or the channel is 15: then closef
      comes first, then openf with the collected name and its length, the
      name is NUL-terminated in place and the buffer emptied. Otherwise no
      channel and not the buffer change, only flushf (if present) is called,
      and the status is 0. */
  lemma OpenFileDelayedClose(s: State, env: Env, device: nat, secondary: Byte)
    requires Valid(s) && CommandOf(secondary) == 0xF0
    ensures var unit, channel := UnitOf(device), ChannelOf(secondary);
            var k := Slot(unit, channel);
            var t := TargetOf(unit);
            var r := SerialCommand(s, env, device, secondary);
            var close := CloseCall(unit, t, channel);
            var open := OpenCall(unit, t, Some(Name(s)), s.ptr, channel);
            var n := |s.trace|;
            && (ReopenDue(s, unit, channel) <==> (s.isopen[k] != Closed && (s.ptr != 0 || channel == 15)))
            && (ReopenDue(s, unit, channel) ==>
                  && |r.state.trace| >= n + 2
                  && r.state.trace[..n + 2] == s.trace + [close, open]
                  && r.status == ToByte(env.respond(s.trace + [close], open).status)
                  && r.state.buffer == s.buffer[s.ptr := 0] && r.state.ptr == 0)
            && (!ReopenDue(s, unit, channel) ==>
                  r == Outcome(s.(nextok := s.nextok[k := false], trace := s.trace + FlushCalls(env, unit, channel)), 0))
  {
  }

  /** OPEN FILE that reopens: if openf fails (its status as a byte is not 0)
      the channel ends closed and closef is called exactly once more; if it
      succeeds the channel is open. Either way flushf (if present) ends it. */
  lemma OpenFileFailureCleanup(s: State, env: Env, device: nat, secondary: Byte)
    requires Valid(s) && CommandOf(secondary) == 0xF0
    requires ReopenDue(s, UnitOf(device), ChannelOf(secondary))
    ensures var unit, channel := UnitOf(device), ChannelOf(secondary);
            var k := Slot(unit, channel);
            var t := TargetOf(unit);
            var r := SerialCommand(s, env, device, secondary);
            var close := CloseCall(unit, t, channel);
            var open := OpenCall(unit, t, Some(Name(s)), s.ptr, channel);
            var flush := FlushCalls(env, unit, channel);
            && (r.status != 0 ==>
                  r.state.isopen == s.isopen[k := Closed] && r.state.trace == s.trace + [close, open, close] + flush)
            && (r.status == 0 ==>
                  r.state.isopen == s.isopen[k := Open] && r.state.trace == s.trace + [close, open] + flush)
  {
  }

  /** OPEN CHANNEL opens only a channel awaiting its name and OPEN FILE only
      one that is not closed: no command opens a closed channel. */
  lemma CommandNeverOpensClosedChannel(s: State, env: Env, device: nat, secondary: Byte, k: nat)
    requires Valid(s) && k < Slots && s.isopen[k] == Closed
    ensures SerialCommand(s, env, device, secondary).state.isopen[k] != Open
  {
  }

  // ---------------------------------------------------------------------
  // The entry points the bus-trap layer calls

  /** fsdrive_open makes the channel await its name, and nothing else. */
  lemma BeginOpenAwaitsName(s: State, device: nat, secondary: Byte)
    requires Valid(s)
    ensures var k := Slot(UnitOf(device), ChannelOf(secondary));
            var r := BeginOpen(s, device, secondary);
            r.state == s.(isopen := s.isopen[k := AwaitingName]) && r.report == None
  {
  }

  /** fsdrive_listentalk reports the command's status, then notifies listenf
      of a unit 8 or up whose driver has one. */
  lemma ListenTalkNotifiesAfterCommand(s: State, env: Env, device: nat, secondary: Byte)
    requires Valid(s)
    ensures var o := SerialCommand(s, env, device, secondary);
            var r := ListenTalk(s, env, device, secondary);
            var unit := UnitOf(device);
            && r.report == Some(o.status)
            && r.state == o.state.(trace := o.state.trace + ListenCalls(env, unit, ChannelOf(secondary)))
            && (unit < 8 || !env.device(unit).hasListen ==> r.state == o.state)
  {
  }

  /** fsdrive_unlisten: for OPEN FILE or channel 15 it runs the command, reports
      its status and drops the read-ahead byte; for anything else it reports
      nothing and changes nothing but, on units 8 and up, a listenf call. */
  lemma UnlistenCases(s: State, env: Env, device: nat, secondary: Byte)
    requires Valid(s)
    ensures var unit, channel := UnitOf(device), ChannelOf(secondary);
            var r := Unlisten(s, env, device, secondary);
            var o := SerialCommand(s, env, device, secondary);
            && (CommandOf(secondary) == 0xF0 || channel == 15 ==>
                  r.report == Some(o.status) && !r.state.nextok[Slot(unit, channel)]
                  && r.state.isopen == o.state.isopen && r.state.trace == o.state.trace)
            && (CommandOf(secondary) != 0xF0 && channel != 15 ==>
                  r.report == None && r.state == s.(trace := s.trace + ListenCalls(env, unit, channel)))
  {
  }

  /** fsdrive_write to a device that is not in use reports 0x83 and makes no
      driver call and no change. */
  lemma WriteToAbsentDevice(s: State, env: Env, device: nat, secondary: Byte, data: Byte)
    requires Valid(s) && !env.device(UnitOf(device)).inUse
    ensures Write(s, env, device, secondary, data) == Reported(s, Some(DeviceNotPresent))
  {
  }

  /** fsdrive_write to a channel awaiting its name appends the byte while the
      name is shorter than 255 bytes and drops it after; it reports nothing and
      calls no driver. */
  lemma WriteCollectsName(s: State, env: Env, device: nat, secondary: Byte, data: Byte)
    requires Valid(s) && env.device(UnitOf(device)).inUse
    requires s.isopen[Slot(UnitOf(device), ChannelOf(secondary))] == AwaitingName
    ensures var r := Write(s, env, device, secondary, data);
            && r.report == None && r.state.trace == s.trace
            && r.state.isopen == s.isopen && r.state.nextok == s.nextok && r.state.nextbyte == s.nextbyte
            && Name(r.state) == (if s.ptr < NameLength then Name(s) + [data] else Name(s))
            && r.state.buffer[r.state.ptr..] == s.buffer[r.state.ptr..]
  {
  }

  /** fsdrive_write to an in-use device whose channel is not awaiting its name
      sends the byte to putf and reports exactly putf's status; the name
      buffer is not touched. */
  lemma WriteForwardsToDriver(s: State, env: Env, device: nat, secondary: Byte, data: Byte)
    requires Valid(s) && env.device(UnitOf(device)).inUse
    requires s.isopen[Slot(UnitOf(device), ChannelOf(secondary))] != AwaitingName
    ensures var unit := UnitOf(device);
            var put := PutCall(unit, TargetOf(unit), data, ChannelOf(secondary));
            var r := Write(s, env, device, secondary, data);
            && r.state == s.(trace := s.trace + [put])
            && r.report == Some(ToByte(env.respond(s.trace, put).status))
  {
  }

  /** Several bytes written with fsdrive_write, and the statuses reported. */
  function WriteEach(s: State, env: Env, device: nat, secondary: Byte, data: seq<Byte>): (r: (State, seq<Byte>))
    requires Valid(s)
    ensures Valid(r.0) && |r.1| <= |data|
    decreases |data|
  {
    if data == [] then (s, [])
    else
      var w := Write(s, env, device, secondary, data[0]);
      var rest := WriteEach(w.state, env, device, secondary, data[1..]);
      (rest.0, (match w.report case Some(b) => [b] case None => []) + rest.1)
  }

  /** A name written byte by byte is collected up to 255 bytes and the rest is
      silently dropped: no status, no driver call, no channel changes. */
  lemma {:induction false} WritesTruncateName(s: State, env: Env, device: nat, secondary: Byte, data: seq<Byte>)
    requires Valid(s) && env.device(UnitOf(device)).inUse
    requires s.isopen[Slot(UnitOf(device), ChannelOf(secondary))] == AwaitingName
    ensures var (r, reports) := WriteEach(s, env, device, secondary, data);
            && Name(r) == (Name(s) + data)[..Min(s.ptr + |data|, NameLength)]
            && reports == [] && r.trace == s.trace
            && r.isopen == s.isopen && r.nextok == s.nextok && r.nextbyte == s.nextbyte
    decreases |data|
  {
    if data != [] {
      var w := Write(s, env, device, secondary, data[0]);
      WriteCollectsName(s, env, device, secondary, data[0]);
      WritesTruncateName(w.state, env, device, secondary, data[1..]);
      TruncatedAppend(Name(s), data);
    }
  }

  /** One more byte offered to a name that keeps at most 255 bytes. */
  lemma TruncatedAppend(name: seq<Byte>, data: seq<Byte>)
    requires |name| <= NameLength && data != []
    ensures var next := if |name| < NameLength then name + [data[0]] else name;
            (next + data[1..])[..Min(|next| + |data| - 1, NameLength)] == (name + data)[..Min(|name| + |data|, NameLength)]
  {
    if |name| < NameLength {
      assert name + [data[0]] + data[1..] == name + data;
    } else {
      assert (name + data[1..])[..NameLength] == name;
      assert (name + data)[..NameLength] == name;
    }
  }

  /** fsdrive_read calls getf exactly once, returns the byte getf stored in
      the read-ahead slot (the old one if it stored none), reports getf's
      status and leaves the read-ahead flag cleared. */
  lemma ReadFetchesOnce(s: State, env: Env, device: nat, secondary: Byte)
    requires Valid(s)
    ensures var unit, channel := UnitOf(device), ChannelOf(secondary);
            var k := Slot(unit, channel);
            var get := GetCall(unit, TargetOf(unit), channel);
            var reply := env.respond(s.trace, get);
            var r := Read(s, env, device, secondary);
            && r.state.trace == s.trace + [get]
            && r.data == r.state.nextbyte[k]
            && (reply.fetched.Some? ==> r.data == reply.fetched.value)
            && (reply.fetched.None? ==> r.data == s.nextbyte[k])
            && r.status == ToByte(reply.status)
            && !r.state.nextok[k]
            && r.state.isopen == s.isopen && r.state.buffer == s.buffer && r.state.ptr == s.ptr
  {
  }

  // ---------------------------------------------------------------------
  // fsdrive_reset

  /** The close call the inner reset loop owes, from channel `from` of `unit` on. */
  predicate ChannelCloseDue(s: State, unit: nat, from: nat, c: DriverCall)
    requires Valid(s) && unit < Units
  {
    c.CloseCall? && c.unit == unit && from <= c.channel < Channels && c.target == VDrive(unit) &&
    s.isopen[Slot(unit, c.channel)] != Closed
  }

  /** The close call the outer reset loop owes, from unit `from` on. */
  predicate ResetCloseDue(s: State, env: Env, from: nat, c: DriverCall)
    requires Valid(s)
  {
    c.CloseCall? && from <= c.unit < Units && c.channel < Channels && c.target == VDrive(c.unit) &&
    env.device(c.unit).inUse && s.isopen[Slot(c.unit, c.channel)] != Closed
  }

  lemma ExtendsTransitive(a: seq<DriverCall>, b: seq<DriverCall>, c: seq<DriverCall>)
    requires Extends(a, b) && Extends(b, c)
    ensures Extends(a, c) && c[|a|..] == b[|a|..] + c[|b|..]
  {
    assert c[..|a|] == c[..|b|][..|a|];
  }

  /** Closing one channel of a unit splits the closes it owes into that
      channel's own and those of the channels after it. */
  lemma CloseDueNext(s: State, unit: nat, channel: nat, c: DriverCall)
    requires Valid(s) && unit < Units && channel < Channels
    ensures var s' := ResetChannel(s, unit, channel);
            && ChannelCloseDue(s', unit, channel + 1, c) == ChannelCloseDue(s, unit, channel + 1, c)
            && ChannelCloseDue(s, unit, channel, c) ==
               (ChannelCloseDue(s, unit, channel + 1, c) ||
                (s.isopen[Slot(unit, channel)] != Closed && c == CloseCall(unit, VDrive(unit), channel)))
  {
  }

  /** What sweeping the channels of one unit from `channel` on does to `s`, giving `r`. */
  ghost predicate ChannelsSwept(s: State, r: State, unit: nat, channel: nat)
    requires Valid(s) && Valid(r) && unit < Units
  {
    && r.nextok == s.nextok && r.nextbyte == s.nextbyte && r.buffer == s.buffer && r.ptr == s.ptr
    && Extends(s.trace, r.trace)
    && (forall k | 0 <= k < Slots ::
          r.isopen[k] == if unit * 16 + channel <= k < unit * 16 + 16 then Closed else s.isopen[k])
    && (forall c :: multiset(r.trace[|s.trace|..])[c] == if ChannelCloseDue(s, unit, channel, c) then 1 else 0)
  }

  /** The inner reset loop, from `channel` on, closes each channel of the unit
      that is not closed with exactly one closef, and changes nothing else. */
  lemma {:induction false} ResetChannelsEffect(s: State, unit: nat, channel: nat)
    requires Valid(s) && unit < Units && channel <= Channels
    ensures ChannelsSwept(s, ResetChannelsFrom(s, unit, channel), unit, channel)
    decreases Channels - channel
  {
    if channel == Channels {
      assert s.trace[|s.trace|..] == [];
    } else {
      ResetChannelsEffect(ResetChannel(s, unit, channel), unit, channel + 1);
      ChannelThenLater(s, unit, channel);
    }
  }

  /** The step of ResetChannelsEffect: one channel, then the channels after it. */
  lemma ChannelThenLater(s: State, unit: nat, channel: nat)
    requires Valid(s) && unit < Units && channel < Channels
    requires var s' := ResetChannel(s, unit, channel);
             ChannelsSwept(s', ResetChannelsFrom(s', unit, channel + 1), unit, channel + 1)
    ensures ChannelsSwept(s, ResetChannelsFrom(s, unit, channel), unit, channel)
  {
    var s' := ResetChannel(s, unit, channel);
    var r := ResetChannelsFrom(s, unit, channel);
    var k0 := Slot(unit, channel);
    var close := CloseCall(unit, VDrive(unit), channel);
    var mine := if s.isopen[k0] != Closed then [close] else [];
    assert s'.trace == s.trace + mine;
    assert Extends(s.trace, s'.trace) by { assert s'.trace[..|s.trace|] == s.trace; }
    ExtendsTransitive(s.trace, s'.trace, r.trace);
    assert s'.trace[|s.trace|..] == mine;
    assert multiset(r.trace[|s.trace|..]) == multiset(mine) + multiset(r.trace[|s'.trace|..]);
    forall c
      ensures multiset(r.trace[|s.trace|..])[c] == if ChannelCloseDue(s, unit, channel, c) then 1 else 0
    {
      CloseDueNext(s, unit, channel, c);
    }
  }

  lemma {:induction false} ResetUnitsFrame(s: State, env: Env, unit: nat)
    requires Valid(s) && unit <= Units
    ensures var r := ResetUnitsFrom(s, env, unit);
            && r.nextok == s.nextok && r.nextbyte == s.nextbyte && r.buffer == s.buffer && r.ptr == s.ptr
            && Extends(s.trace, r.trace)
    decreases Units - unit
  {
    if unit < Units {
      var s' := SweepUnit(s, env, unit);
      UnitSweep(s, env, unit);
      ResetUnitsFrame(s', env, unit + 1);
      ExtendsTransitive(s.trace, s'.trace, ResetUnitsFrom(s, env, unit).trace);
    }
  }

  lemma {:induction false} ResetUnitsTable(s: State, env: Env, unit: nat)
    requires Valid(s) && unit <= Units
    ensures var r := ResetUnitsFrom(s, env, unit);
            forall u, ch | 0 <= u < Units && 0 <= ch < Channels ::
              r.isopen[Slot(u, ch)] == if unit <= u && env.device(u).inUse then Closed else s.isopen[Slot(u, ch)]
    decreases Units - unit
  {
    if unit < Units {
      var s' := SweepUnit(s, env, unit);
      ResetUnitsTable(s', env, unit + 1);
      UnitTableThenLater(s, env, unit);
    }
  }

  /** The step of ResetUnitsTable: one unit's sweep, then the later units'. */
  lemma UnitTableThenLater(s: State, env: Env, unit: nat)
    requires Valid(s) && unit < Units
    requires var s' := SweepUnit(s, env, unit);
             var r := ResetUnitsFrom(s', env, unit + 1);
             forall u, ch | 0 <= u < Units && 0 <= ch < Channels ::
               r.isopen[Slot(u, ch)] == if unit + 1 <= u && env.device(u).inUse then Closed else s'.isopen[Slot(u, ch)]
    ensures var r := ResetUnitsFrom(s, env, unit);
            forall u, ch | 0 <= u < Units && 0 <= ch < Channels ::
              r.isopen[Slot(u, ch)] == if unit <= u && env.device(u).inUse then Closed else s.isopen[Slot(u, ch)]
  {
    var s' := SweepUnit(s, env, unit);
    UnitSweepTable(s, env, unit);
    SweepsCompose(s.isopen, s'.isopen, ResetUnitsFrom(s, env, unit).isopen, env, unit);
  }

  /** Sweeping unit `unit` and then the units after it sweeps the units from `unit` on. */
  lemma SweepsCompose(t: seq<ChannelState>, t': seq<ChannelState>, t'': seq<ChannelState>, env: Env, unit: nat)
    requires |t| == Slots && |t'| == Slots && |t''| == Slots
    requires forall u, ch | 0 <= u < Units && 0 <= ch < Channels ::
               t'[Slot(u, ch)] == if u == unit && env.device(u).inUse then Closed else t[Slot(u, ch)]
    requires forall u, ch | 0 <= u < Units && 0 <= ch < Channels ::
               t''[Slot(u, ch)] == if unit + 1 <= u && env.device(u).inUse then Closed else t'[Slot(u, ch)]
    ensures forall u, ch | 0 <= u < Units && 0 <= ch < Channels ::
              t''[Slot(u, ch)] == if unit <= u && env.device(u).inUse then Closed else t[Slot(u, ch)]
  {
  }

  lemma {:induction false} ResetUnitsCloses(s: State, env: Env, unit: nat)
    requires Valid(s) && unit <= Units
    ensures var r := ResetUnitsFrom(s, env, unit);
            Extends(s.trace, r.trace) &&
            forall c :: multiset(r.trace[|s.trace|..])[c] == if ResetCloseDue(s, env, unit, c) then 1 else 0
    decreases Units - unit
  {
    if unit == Units {
      assert s.trace[|s.trace|..] == [];
    } else {
      var s' := SweepUnit(s, env, unit);
      ResetUnitsCloses(s', env, unit + 1);
      UnitClosesThenLater(s, env, unit);
    }
  }

  /** The step of ResetUnitsCloses: the closes of one unit's sweep followed
      by those the later units owe. */
  lemma UnitClosesThenLater(s: State, env: Env, unit: nat)
    requires Valid(s) && unit < Units
    requires var s' := SweepUnit(s, env, unit);
             var r := ResetUnitsFrom(s', env, unit + 1);
             Extends(s'.trace, r.trace) &&
             forall c :: multiset(r.trace[|s'.trace|..])[c] == if ResetCloseDue(s', env, unit + 1, c) then 1 else 0
    ensures var r := ResetUnitsFrom(s, env, unit);
            Extends(s.trace, r.trace) &&
            forall c :: multiset(r.trace[|s.trace|..])[c] == if ResetCloseDue(s, env, unit, c) then 1 else 0
  {
    var s' := SweepUnit(s, env, unit);
    UnitSweep(s, env, unit);
    UnitSweepTable(s, env, unit);
    ClosesCompose(s, s', ResetUnitsFrom(s, env, unit).trace, env, unit);
  }

  /** Sweeping one unit leaves the closes owed to the later units as they were. */
  lemma CloseDueLater(s: State, s': State, env: Env, unit: nat, c: DriverCall)
    requires Valid(s) && Valid(s') && unit < Units
    requires forall u, ch | 0 <= u < Units && 0 <= ch < Channels ::
               s'.isopen[Slot(u, ch)] == if u == unit && env.device(u).inUse then Closed else s.isopen[Slot(u, ch)]
    ensures ResetCloseDue(s', env, unit + 1, c) == ResetCloseDue(s, env, unit + 1, c)
  {
    if c.CloseCall? && unit + 1 <= c.unit < Units && c.channel < Channels {
      assert s'.isopen[Slot(c.unit, c.channel)] == s.isopen[Slot(c.unit, c.channel)];
    }
  }

  /** The closes of one unit followed by those of the units after it are the
      closes owed from that unit on. */
  lemma ClosesCompose(s: State, s': State, t: seq<DriverCall>, env: Env, unit: nat)
    requires Valid(s) && Valid(s') && unit < Units
    requires Extends(s.trace, s'.trace) && Extends(s'.trace, t)
    requires forall u, ch | 0 <= u < Units && 0 <= ch < Channels ::
               s'.isopen[Slot(u, ch)] == if u == unit && env.device(u).inUse then Closed else s.isopen[Slot(u, ch)]
    requires forall c :: multiset(s'.trace[|s.trace|..])[c] ==
               if c.CloseCall? && c.unit == unit && ResetCloseDue(s, env, unit, c) then 1 else 0
    requires forall c :: multiset(t[|s'.trace|..])[c] == if ResetCloseDue(s', env, unit + 1, c) then 1 else 0
    ensures Extends(s.trace, t)
    ensures forall c :: multiset(t[|s.trace|..])[c] == if ResetCloseDue(s, env, unit, c) then 1 else 0
  {
    ExtendsTransitive(s.trace, s'.trace, t);
    assert multiset(t[|s.trace|..]) == multiset(s'.trace[|s.trace|..]) + multiset(t[|s'.trace|..]);
    forall c
      ensures multiset(t[|s.trace|..])[c] == if ResetCloseDue(s, env, unit, c) then 1 else 0
    {
      CloseDueLater(s, s', env, unit, c);
    }
  }

  /** One pass of the outer reset loop: the unit's channels if it is in use, nothing otherwise. */
  lemma UnitSweep(s: State, env: Env, unit: nat)
    requires Valid(s) && unit < Units
    ensures var s' := SweepUnit(s, env, unit);
            && s'.nextok == s.nextok && s'.nextbyte == s.nextbyte && s'.buffer == s.buffer && s'.ptr == s.ptr
            && Extends(s.trace, s'.trace)
            && (forall c :: multiset(s'.trace[|s.trace|..])[c] ==
                  if c.CloseCall? && c.unit == unit && ResetCloseDue(s, env, unit, c) then 1 else 0)
  {
    ResetChannelsEffect(s, unit, 0);
    if !env.device(unit).inUse {
      assert s.trace[|s.trace|..] == [];
    }
  }

  /** One pass of the outer reset loop closes the unit's channels if it is in use, and no others. */
  lemma UnitSweepTable(s: State, env: Env, unit: nat)
    requires Valid(s) && unit < Units
    ensures var s' := SweepUnit(s, env, unit);
            forall u, ch | 0 <= u < Units && 0 <= ch < Channels ::
              s'.isopen[Slot(u, ch)] == if u == unit && env.device(u).inUse then Closed else s.isopen[Slot(u, ch)]
  {
    ResetChannelsEffect(s, unit, 0);
  }

  /** fsdrive_reset calls closef exactly once for every channel that is not
      closed on every device in use, and no other driver function; it leaves
      those channels closed and every other channel, the read-ahead tables and
      the name buffer as they were. */
  lemma ResetClosesEachOpenChannelOnce(s: State, env: Env)
    requires Valid(s)
    ensures var r := Reset(s, env);
            && Extends(s.trace, r.trace)
            && (forall c :: multiset(r.trace[|s.trace|..])[c] ==
                  if c.CloseCall? && c.unit < Units && c.channel < Channels && c.target == VDrive(c.unit) &&
                     env.device(c.unit).inUse && s.isopen[Slot(c.unit, c.channel)] != Closed
                  then 1 else 0)
            && (forall u, ch | 0 <= u < Units && 0 <= ch < Channels ::
                  r.isopen[Slot(u, ch)] == if env.device(u).inUse then Closed else s.isopen[Slot(u, ch)])
            && r.nextok == s.nextok && r.nextbyte == s.nextbyte && r.buffer == s.buffer && r.ptr == s.ptr
  {
    ResetUnitsFrame(s, env, 0);
    ResetUnitsTable(s, env, 0);
    ResetUnitsCloses(s, env, 0);
  }

  // ---------------------------------------------------------------------
  // Across entry points

  /** No entry point takes a closed channel straight to OPEN: a channel opens
      only after fsdrive_open has made it await its name. */
  lemma ClosedChannelNeverOpens(s: State, env: Env, op: Op, k: nat)
    requires Valid(s) && k < Slots && s.isopen[k] == Closed
    ensures Apply(s, env, op).isopen[k] != Open
  {
    match op
    case CloseOp(d, sa) => CommandNeverOpensClosedChannel(s, env, d, sa, k);
    case ListenTalkOp(d, sa) => CommandNeverOpensClosedChannel(s, env, d, sa, k);
    case UnlistenOp(d, sa) => CommandNeverOpensClosedChannel(s, env, d, sa, k);
    case ResetOp =>
      ResetClosesEachOpenChannelOnce(s, env);
      assert k == Slot(k / 16, k % 16);
    case _ =>
  }

  /** A secondary address 0x6N is OPEN CHANNEL for channel N of the device's unit. */
  lemma OpenChannelCommand(s: State, env: Env, device: nat, secondary: Byte)
    requires Valid(s) && CommandOf(secondary) == 0x60
    ensures SerialCommand(s, env, device, secondary) == OpenChannel(s, env, UnitOf(device), ChannelOf(secondary))
  {
  }

  /** Writing "TEST" to channel 2 of device 8 while it awaits its name, then
      OPEN CHANNEL 0x62: openf with a NULL name, then putf 'T', 'E', 'S', 'T'. */
  lemma NameReplayScenario(s: State, env: Env)
    requires Valid(s) && env.device(8).inUse && s.isopen[Slot(8, 2)] == AwaitingName && s.ptr == 0
    ensures var w := WriteEach(s, env, 8, 0x62, [84, 69, 83, 84]).0;
            var r := SerialCommand(w, env, 8, 0x62);
            && r.state.trace == s.trace + [OpenCall(8, VDrive(8), None, 0, 2)]
                                + [PutCall(8, VDrive(8), 84, 2), PutCall(8, VDrive(8), 69, 2),
                                   PutCall(8, VDrive(8), 83, 2), PutCall(8, VDrive(8), 84, 2)]
                                + FlushCalls(env, 8, 2)
            && r.state.isopen[Slot(8, 2)] == Open && r.state.ptr == 0
  {
    var test: seq<Byte> := [84, 69, 83, 84];
    var w := WriteEach(s, env, 8, 0x62, test).0;
    WritesTruncateName(s, env, 8, 0x62, test);
    assert Name(s) == [];
    assert Name(w) == test;
    OpenChannelCommand(w, env, 8, 0x62);
    ReplayInOrder(8, VDrive(8), test, 2);
    assert Replay(8, VDrive(8), test, 2) == [PutCall(8, VDrive(8), 84, 2), PutCall(8, VDrive(8), 69, 2),
                                            PutCall(8, VDrive(8), 83, 2), PutCall(8, VDrive(8), 84, 2)];
  }
}
