/** The parser object, the printer, the SysEx7 packetiser and the reader, as the source runs them. */
module MidiStream {
  import opened Prelude
  import opened MidiUmp
  import opened MidiCodec

  class Midi1ByteToUmpParser {
    const pending: array<bv8>
    const sysexBuffer: array<bv8>
    var runningStatus: bv8
    var pendingIndex: nat
    var expectedSize: nat
    var sysexSize: nat
    var sysexActive: bool
    var sysexMultiPacket: bool

    predicate Shape() {
      pending.Length == 3 && sysexBuffer.Length == 6 && pending != sysexBuffer
    }

    function State(): Parser
      requires Shape()
      reads this, pending, sysexBuffer
    {
      Parser(pending[..], pendingIndex, expectedSize, runningStatus, sysexBuffer[..], sysexSize, sysexActive,
             sysexMultiPacket)
    }

    predicate Valid()
      reads this, pending, sysexBuffer
    {
      Shape() && Ready(State())
    }

    constructor ()
      ensures Valid() && State() == INITIAL && fresh(pending) && fresh(sysexBuffer)
    {
      pending := new bv8[3](_ => 0);
      sysexBuffer := new bv8[6](_ => 0);
      runningStatus, pendingIndex, expectedSize := 0, 0, 0;
      sysexSize, sysexActive, sysexMultiPacket := 0, false, false;
      new;
      assert pending[..] == [0, 0, 0] && sysexBuffer[..] == [0, 0, 0, 0, 0, 0];
    }

    method Reset()
      requires Shape()
      modifies this, pending, sysexBuffer
      ensures Valid() && State() == INITIAL
    {
      runningStatus := 0;
      ZeroFill(pending);
      pendingIndex := 0;
      expectedSize := 0;
      ZeroFill(sysexBuffer);
      sysexSize := 0;
      sysexActive := false;
      sysexMultiPacket := false;
      Zeros();
    }

    /** An array given its initial value again. */
    static method ZeroFill(a: array<bv8>)
      modifies a
      ensures a[..] == seq(a.Length, _ => 0)
    {
      var i := 0;
      while i < a.Length
        invariant 0 <= i <= a.Length
        invariant forall k :: 0 <= k < i ==> a[k] == 0
      {
        a[i] := 0;
        i := i + 1;
      }
    }

    static lemma Zeros()
      ensures seq(3, _ => 0 as bv8) == INITIAL.pending && seq(6, _ => 0 as bv8) == INITIAL.buffer
    {
    }

    method CompleteMessage(group: bv8) returns (packet: Option<Ump>)
      requires Shape() && sysexSize <= 6
      modifies this
      ensures Valid() && (State(), packet) == MidiCodec.CompleteMessage(old(State()), group)
    {
      var status := pending[0];
      var data1 := if expectedSize > 1 then pending[1] else 0;
      var data2 := if expectedSize > 2 then pending[2] else 0;
      pendingIndex := 0;
      expectedSize := 0;
      if status < MIDI_SYSTEM_MESSAGE_MIN {
        runningStatus := status;
        return Some(ChannelVoiceUmp(group, status, data1, data2));
      }
      runningStatus := 0;
      return Some(SystemUmp(group, status, data1, data2));
    }

    /** `flush_sysex`: the buffered bytes are or-ed into the lanes one by one. */
    method FlushSysEx(group: bv8, status: SysExStatus) returns (packet: Option<Ump>)
      requires Valid()
      modifies this`sysexSize
      ensures Valid() && (State(), packet) == MidiCodec.FlushSysEx(old(State()), group, status)
    {
      hide SysEx7Header, WriteLane;
      var u := Ump(SysEx7Header(group, status, sysexSize), 0, 0, 0);
      var i := 0;
      ghost var payload := sysexBuffer[..sysexSize];
      while i < sysexSize
        invariant i <= sysexSize
        invariant u == Packed(SysEx7Header(group, status, sysexSize), payload[..i])
      {
        u := WriteLane(u, i, sysexBuffer[i]);
        assert payload[..i + 1][..i] == payload[..i];
        i := i + 1;
      }
      assert payload[..sysexSize] == payload;
      assert State().buffer[..sysexSize] == payload;
      sysexSize := 0;
      return Some(u);
    }

    method Push(data: bv8)
      requires Valid() && sysexSize < 6
      modifies this`sysexSize, sysexBuffer
      ensures Valid() && State() == PushSysEx(old(State()), data)
    {
      sysexBuffer[sysexSize] := data & 0x7F;
      sysexSize := sysexSize + 1;
    }

    method ParseSysExByte(data: bv8, group: bv8) returns (packet: Option<Ump>)
      requires Valid() && data != SYS_EX_START && sysexActive
      modifies this, pending, sysexBuffer
      ensures Valid() && (State(), packet) == MidiCodec.ParseSysExByte(old(State()), data, group)
    {
      hide MidiCodec.ParseIdle, SysExPacket;
      if data == SYS_EX_END {
        var status := if sysexMultiPacket then End else Complete;
        sysexActive := false;
        packet := FlushSysEx(group, status);
        return;
      }
      if data >= MIDI_STATUS_MIN {
        Reset();
        packet := ParseIdle(data, group);
        return;
      }
      if sysexSize == 6 {
        packet := FlushSysEx(group, if sysexMultiPacket then Middle else Begin);
        sysexMultiPacket := true;
        Push(data);
        return;
      }
      Push(data);
      return None;
    }

    /** `parse` outside SysEx, with no message begun. */
    method ParseIdle(data: bv8, group: bv8) returns (packet: Option<Ump>)
      requires Valid() && data != SYS_EX_START && pendingIndex == 0
      modifies this, pending, sysexBuffer
      ensures Valid() && (State(), packet) == MidiCodec.ParseIdle(old(State()), data, group)
    {
      hide TypeFromStatusByte, SystemUmp, MidiCodec.CompleteMessage;
      if data < MIDI_STATUS_MIN && IsChannelMessage(TypeFromStatusByte(runningStatus)) {
        pending[0] := runningStatus;
        pending[1] := data;
        pendingIndex := 2;
      } else {
        pending[0] := data;
        pendingIndex := 1;
      }
      var t := TypeFromStatusByte(pending[0]);
      if IsSingleByte(t) {
        pendingIndex := 0;
        expectedSize := 0;
        return Some(SystemUmp(group, pending[0], 0, 0));
      }
      if MessageSize(t) == 0 {
        Reset();
        return None;
      }
      expectedSize := MessageSize(t);
      if pendingIndex >= expectedSize {
        packet := CompleteMessage(group);
        return;
      }
      return None;
    }

    /** Takes in one byte; a packet comes out when a message is complete. */
    method Parse(data: bv8, group: bv8) returns (packet: Option<Ump>)
      requires Valid()
      modifies this, pending, sysexBuffer
      ensures Valid() && (State(), packet) == MidiCodec.Parse(old(State()), data, group)
    {
      hide MidiCodec.ParseIdle, MidiCodec.ParseSysExByte, MidiCodec.CompleteMessage;
      if data == SYS_EX_START {
        pendingIndex := 0;
        expectedSize := 0;
        runningStatus := 0;
        sysexSize := 0;
        sysexActive := true;
        sysexMultiPacket := false;
        return None;
      }
      if sysexActive {
        packet := ParseSysExByte(data, group);
        return;
      }
      if pendingIndex == 0 {
        packet := ParseIdle(data, group);
        return;
      }
      if data >= MIDI_STATUS_MIN {
        Reset();
        packet := ParseIdle(data, group);
        return;
      }
      pending[pendingIndex] := data;
      pendingIndex := pendingIndex + 1;
      if pendingIndex >= expectedSize {
        packet := CompleteMessage(group);
        return;
      }
      return None;
    }

    /**
     `read_midi1_bytes_as_ump`: bytes are taken from `input` until one packet is complete; `used` of them
     have then been consumed, all of them when none is.
     */
    method ReadUmp(group: bv8, input: seq<bv8>) returns (packet: Option<Ump>, used: nat)
      requires Valid()
      modifies this, pending, sysexBuffer
      ensures Valid() && used <= |input|
      ensures (State(), Emitted(packet)) == ParseAll(old(State()), input[..used], group)
      ensures packet == None ==> used == |input|
    {
      hide MidiCodec.Parse, MidiCodec.ParseAll, State;
      used := 0;
      ParseNothing(State(), group);
      assert input[..0] == [];
      while used < |input|
        invariant Valid() && used <= |input|
        invariant ParseAll(old(State()), input[..used], group) == (State(), [])
      {
        ghost var before := State();
        packet := Parse(input[used], group);
        ParseOneMore(old(State()), before, input, used, group);
        used := used + 1;
        if packet.Some? {
          return;
        }
      }
      return None, used;
    }
  }

  lemma ParseNothing(p: Parser, group: bv8)
    requires Ready(p)
    ensures ParseAll(p, [], group) == (p, [])
  {
  }

  /** A byte after a silent run of bytes adds what the parser makes of that byte. */
  lemma ParseOneMore(p: Parser, q: Parser, input: seq<bv8>, used: nat, group: bv8)
    requires Ready(p) && Ready(q) && used < |input|
    requires ParseAll(p, input[..used], group) == (q, [])
    ensures
      var (r, o) := MidiCodec.Parse(q, input[used], group);
      ParseAll(p, input[..used + 1], group) == (r, Emitted(o))
  {
    hide MidiCodec.Parse, ParseAll;
    ParseOne(q, input[used], group);
    ParseAppend(p, input[..used], [input[used]], group);
    assert input[..used + 1] == input[..used] + [input[used]];
    var o := MidiCodec.Parse(q, input[used], group).1;
    assert [] + Emitted(o) == Emitted(o);
  }

  lemma Joined(a: bv8, b: bv8, c: bv8)
    ensures [a] + [b] == [a, b] && [a, b] + [c] == [a, b, c] && [a] + [b] + [c] == [a, b, c]
    ensures [a, b] + [] == [a, b]
  {
  }

  lemma NextLane(packet: Ump, size: nat, i: nat)
    requires i < size <= 6
    ensures Lanes(packet, size)[..i + 1] == Lanes(packet, size)[..i] + [ReadLane(packet, i)]
  {
  }

  /** What a writer takes that refuses after `limit` items, or never. */
  function Taken<T>(limit: Option<nat>, items: seq<T>): seq<T> {
    if limit.Some? && limit.value < |items| then items[..limit.value] else items
  }

  predicate TakesAll<T>(limit: Option<nat>, items: seq<T>) {
    limit.None? || |items| <= limit.value
  }

  /** One byte handed to the writer. */
  method WriteByte(bytes: seq<bv8>, limit: Option<nat>, data: bv8) returns (ok: bool, written: seq<bv8>)
    requires TakesAll(limit, bytes)
    ensures ok == TakesAll(limit, bytes + [data])
    ensures written == if ok then bytes + [data] else bytes
    ensures !ok ==> limit == Some(|bytes|)
  {
    ok := limit.None? || |bytes| < limit.value;
    written := if ok then bytes + [data] else bytes;
  }

  /** A writer that has taken some items and refuses the next. */
  lemma StoppedAt<T>(limit: Option<nat>, taken: seq<T>, more: seq<T>)
    requires limit == Some(|taken|) && more != []
    ensures !TakesAll(limit, taken + more) && Taken(limit, taken + more) == taken
  {
  }

  /** `write_ump_as_midi1_bytes`: the writer takes the bytes one by one until it refuses one. */
  method WriteUmpAsMidi1Bytes(packet: Ump, group: bv8, limit: Option<nat>) returns (ok: bool, bytes: seq<bv8>)
    ensures
      var printed := Print(packet, group);
      if printed.None? then !ok && bytes == []
      else ok == TakesAll(limit, printed.value) && bytes == Taken(limit, printed.value)
  {
    hide Print, Group, MidiStatus, Data1, Data2, TypeFromStatusByte, IsSysEx7Packet, Taken, TakesAll, Lanes;
    bytes := [];
    PrintsAs(packet, group);
    if Group(packet) != group {
      return false, bytes;
    }
    if MessageKind(packet) == MT_CHANNEL_VOICE {
      var t := TypeFromStatusByte(MidiStatus(packet));
      ok, bytes := WriteShort(MidiStatus(packet), Data1(packet), Data2(packet),
                              if t != ProgramChange && t != AfterTouchChannel then 3 else 2, limit);
      return;
    }
    if MessageKind(packet) == MT_SYSTEM {
      var size := match TypeFromStatusByte(MidiStatus(packet))
        case TimeCodeQuarterFrame => 2
        case SongSelect => 2
        case SongPosition => 3
        case _ => 1;
      ok, bytes := WriteShort(MidiStatus(packet), Data1(packet), Data2(packet), size, limit);
      return;
    }
    if MessageKind(packet) == MT_DATA_64 {
      if !IsSysEx7Packet(packet) {
        return false, bytes;
      }
      ok, bytes := WriteSysEx(packet, SysExStatusOf(packet).value, SizeOf(PayloadSize(packet)), limit);
      return;
    }
    return false, bytes;
  }

  /** What the printing function says, kind by kind. */
  lemma PrintsAs(packet: Ump, group: bv8)
    ensures
      var status := MidiStatus(packet);
      var t := TypeFromStatusByte(status);
      if Group(packet) != group then Print(packet, group) == None
      else if MessageKind(packet) == MT_CHANNEL_VOICE then
        Print(packet, group) ==
        Some(Short(status, Data1(packet), Data2(packet), if t != ProgramChange && t != AfterTouchChannel then 3 else 2))
      else if MessageKind(packet) == MT_SYSTEM then
        Print(packet, group) ==
        Some(Short(status, Data1(packet), Data2(packet),
                   if t == SongPosition then 3 else if t == TimeCodeQuarterFrame || t == SongSelect then 2 else 1))
      else if MessageKind(packet) == MT_DATA_64 && IsSysEx7Packet(packet) then
        && PayloadSize(packet) <= 6 && SysExStatusOf(packet).Some?
        && Print(packet, group) ==
           Some((if StartsMessage(SysExStatusOf(packet).value) then [SYS_EX_START] else []) +
                Lanes(packet, SizeOf(PayloadSize(packet))) +
                (if EndsMessage(SysExStatusOf(packet).value) then [SYS_EX_END] else []))
      else Print(packet, group) == None
  {
    hide MessageKind, Group, MidiStatus, Data1, Data2, TypeFromStatusByte, Lanes, PayloadSize, SysExStatusOf;
    Joined(MidiStatus(packet), Data1(packet), Data2(packet));
  }

  /** The bytes of a channel or system message. */
  function Short(status: bv8, data1: bv8, data2: bv8, size: nat): seq<bv8> {
    if size == 1 then [status] else [status, data1] + if size == 3 then [data2] else []
  }

  method WriteShort(status: bv8, data1: bv8, data2: bv8, size: nat, limit: Option<nat>)
    returns (ok: bool, bytes: seq<bv8>)
    requires 1 <= size <= 3
    ensures ok == TakesAll(limit, Short(status, data1, data2, size))
    ensures bytes == Taken(limit, Short(status, data1, data2, size))
  {
    Joined(status, data1, data2);
    ok, bytes := WriteByte([], limit, status);
    if !ok || size == 1 {
      return;
    }
    ok, bytes := WriteByte(bytes, limit, data1);
    if !ok || size == 2 {
      return;
    }
    ok, bytes := WriteByte(bytes, limit, data2);
  }

  /** Start byte, payload lane by lane, end byte, as far as the writer takes them. */
  method WriteSysEx(packet: Ump, status: SysExStatus, size: nat, limit: Option<nat>)
    returns (ok: bool, bytes: seq<bv8>)
    requires size <= 6
    ensures
      var all := (if StartsMessage(status) then [SYS_EX_START] else []) + Lanes(packet, size) +
                 (if EndsMessage(status) then [SYS_EX_END] else []);
      ok == TakesAll(limit, all) && bytes == Taken(limit, all)
  {
    hide ReadLane;
    var first: seq<bv8> := if StartsMessage(status) then [SYS_EX_START] else [];
    ghost var last: seq<bv8> := if EndsMessage(status) then [SYS_EX_END] else [];
    bytes := [];
    ok := true;
    if StartsMessage(status) {
      ok, bytes := WriteByte(bytes, limit, SYS_EX_START);
      if !ok {
        return;
      }
    }
    var i := 0;
    while i < size
      invariant i <= size && TakesAll(limit, bytes)
      invariant bytes == first + Lanes(packet, size)[..i]
    {
      NextLane(packet, size, i);
      ghost var before := bytes;
      ok, bytes := WriteByte(bytes, limit, ReadLane(packet, i));
      if !ok {
        Remaining(first, Lanes(packet, size), last, i);
        StoppedAt(limit, before, Lanes(packet, size)[i..] + last);
        return;
      }
      i := i + 1;
    }
    ok := true;
    assert bytes == first + Lanes(packet, size);
    assert bytes + [] == bytes;
    if EndsMessage(status) {
      ok, bytes := WriteByte(bytes, limit, SYS_EX_END);
    }
  }

  lemma Remaining(first: seq<bv8>, lanes: seq<bv8>, last: seq<bv8>, i: nat)
    requires i < |lanes|
    ensures first + lanes + last == (first + lanes[..i]) + (lanes[i..] + last)
    ensures lanes[i..] + last != []
  {
    assert lanes == lanes[..i] + lanes[i..];
  }

  /** Packs one chunk of payload bytes into a packet, lane by lane. */
  method PackChunk(group: bv8, status: SysExStatus, chunk: seq<bv8>) returns (packet: Ump)
    requires |chunk| <= 6
    ensures packet == SysExPacket(group, status, chunk)
  {
    hide SysEx7Header, WriteLane;
    packet := Ump(SysEx7Header(group, status, |chunk|), 0, 0, 0);
    var i := 0;
    while i < |chunk|
      invariant i <= |chunk|
      invariant packet == Packed(SysEx7Header(group, status, |chunk|), chunk[..i])
    {
      packet := WriteLane(packet, i, chunk[i]);
      assert chunk[..i + 1][..i] == chunk[..i];
      i := i + 1;
    }
    assert chunk[..|chunk|] == chunk;
  }

  /**
   `write_sysex7_payload_as_ump_packets`: every round takes at least one byte of what is left, or the payload is
   empty and the loop goes on until the writer refuses a packet.
   */
  method WriteSysEx7Payload(group: bv8, payload: seq<bv8>, limit: Option<nat>) returns (ok: bool, packets: seq<Ump>)
    requires payload == [] ==> limit.Some?
    ensures payload != [] ==> ok == TakesAll(limit, Chain(group, payload))
    ensures payload != [] ==> packets == Taken(limit, Chain(group, payload))
    ensures payload == [] ==> !ok && packets == seq(limit.value, _ => SysExPacket(group, Complete, []))
  {
    hide SysExPacket, Chain, Taken;
    packets := [];
    var offset := 0;
    while true
      invariant offset < |payload| || payload == []
      invariant offset <= |payload| && TakesAll(limit, packets)
      invariant payload != [] ==>
                  packets + Chain(group, payload[offset..], offset == 0) == Chain(group, payload)
      invariant payload == [] ==> packets == seq(|packets|, _ => SysExPacket(group, Complete, []))
      decreases |payload| - offset, if payload == [] then limit.value - |packets| else 0
    {
      var remaining := |payload| - offset;
      var chunkSize := if remaining < 6 then remaining else 6;
      var firstChunk := offset == 0;
      var lastChunk := offset + chunkSize == |payload|;
      var status := Middle;
      if firstChunk && lastChunk {
        status := Complete;
      } else if firstChunk {
        status := Begin;
      } else if lastChunk {
        status := End;
      }
      var packet := PackChunk(group, status, payload[offset..offset + chunkSize]);
      NextChunk(group, payload, offset);
      ghost var more := if lastChunk then [] else Chain(group, payload[offset + chunkSize..], false);
      assert [packet] + [] == [packet];
      assert Chain(group, payload[offset..], firstChunk) == [packet] + more;
      if limit.Some? && |packets| >= limit.value {
        if payload != [] {
          StoppedAt(limit, packets, [packet] + more);
        }
        return false, packets;
      }
      assert packets + ([packet] + more) == (packets + [packet]) + more;
      packets := packets + [packet];
      offset := offset + chunkSize;
      if !(offset < |payload| || payload == []) {
        assert packets + [] == packets;
        TookAll(limit, packets);
        return true, packets;
      }
    }
  }

  lemma TookAll<T>(limit: Option<nat>, items: seq<T>)
    requires TakesAll(limit, items)
    ensures Taken(limit, items) == items
  {
  }

  /** The packet that a round of the packetiser makes is the next of the chain. */
  lemma NextChunk(group: bv8, payload: seq<bv8>, offset: nat)
    requires offset < |payload| || (payload == [] && offset == 0)
    ensures
      var size := if |payload| - offset < 6 then |payload| - offset else 6;
      var chunk := payload[offset..offset + size];
      var first, last := offset == 0, offset + size == |payload|;
      Chain(group, payload[offset..], first) ==
      if last then [SysExPacket(group, if first then Complete else End, chunk)]
      else [SysExPacket(group, if first then Begin else Middle, chunk)] + Chain(group, payload[offset + size..], false)
  {
    hide SysExPacket;
    var size := if |payload| - offset < 6 then |payload| - offset else 6;
    var rest := payload[offset..];
    assert payload[offset..offset + size] == rest[..size];
    if offset + size == |payload| {
      assert rest[..size] == rest;
    } else {
      assert rest[6..] == payload[offset + 6..];
    }
  }
}
