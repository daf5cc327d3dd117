/**
 Universal MIDI Packets and the MIDI 1 status bytes they carry: builders, field readers, and the
 facts that a field read back is the field that was built in.
 */
module MidiUmp {
  import opened Prelude

  datatype MessageType =
    | NoteOff | NoteOn | AfterTouchPoly | ControlChange | ProgramChange | AfterTouchChannel | PitchBend
    | SysEx | TimeCodeQuarterFrame | SongPosition | SongSelect | TuneRequest
    | Clock | Start | Continue | Stop | ActiveSensing | SystemReset
    | Invalid

  const SYS_EX_START: bv8 := 0xF0
  const SYS_EX_END: bv8 := 0xF7
  const MIDI_STATUS_MIN: bv8 := 0x80
  const MIDI_SYSTEM_MESSAGE_MIN: bv8 := 0xF0

  function TypeFromStatusByte(status: bv8): MessageType {
    if status < 0x80 || status == 0xF4 || status == 0xF5 || status == 0xF9 || status == 0xFD then Invalid
    else if status < 0xF0 then
      var high := status & 0xF0;
      if high == 0x80 then NoteOff
      else if high == 0x90 then NoteOn
      else if high == 0xA0 then AfterTouchPoly
      else if high == 0xB0 then ControlChange
      else if high == 0xC0 then ProgramChange
      else if high == 0xD0 then AfterTouchChannel
      else PitchBend
    else if status == 0xF0 then SysEx
    else if status == 0xF1 then TimeCodeQuarterFrame
    else if status == 0xF2 then SongPosition
    else if status == 0xF3 then SongSelect
    else if status == 0xF6 then TuneRequest
    else if status == 0xF8 then Clock
    else if status == 0xFA then Start
    else if status == 0xFB then Continue
    else if status == 0xFC then Stop
    else if status == 0xFE then ActiveSensing
    else if status == 0xFF then SystemReset
    else Invalid
  }

  predicate IsChannelMessage(t: MessageType) {
    t in {NoteOff, NoteOn, AfterTouchPoly, ControlChange, ProgramChange, AfterTouchChannel, PitchBend}
  }

  /** The system messages that consist of their status byte alone. */
  predicate IsSingleByte(t: MessageType) {
    t in {Start, Continue, Stop, Clock, ActiveSensing, SystemReset, TuneRequest}
  }

  predicate IsRealTime(status: bv8) {
    status in {0xF8, 0xFA, 0xFB, 0xFC, 0xFE, 0xFF}
  }

  /** Four 32-bit words, of which MIDI 1 and SysEx7 packets use the first one or two. */
  datatype Ump = Ump(d0: bv32, d1: bv32, d2: bv32, d3: bv32)

  function MessageKind(u: Ump): bv32 { u.d0 >> 28 }
  function Group(u: Ump): bv8 { ((u.d0 >> 24) & 0xF) as bv8 }
  function MidiStatus(u: Ump): bv8 { ((u.d0 >> 16) & 0xFF) as bv8 }
  function Data1(u: Ump): bv8 { ((u.d0 >> 8) & 0x7F) as bv8 }
  function Data2(u: Ump): bv8 { (u.d0 & 0x7F) as bv8 }

  const MT_SYSTEM: bv32 := 1
  const MT_CHANNEL_VOICE: bv32 := 2
  const MT_DATA_64: bv32 := 3

  datatype SysExStatus = Complete | Begin | Middle | End

  function StatusCode(s: SysExStatus): bv32 {
    match s
    case Complete => 0
    case Begin => 1
    case Middle => 2
    case End => 3
  }

  function SysExStatusOf(u: Ump): Option<SysExStatus> {
    var code := (u.d0 >> 20) & 0xF;
    if code == 0 then Some(Complete)
    else if code == 1 then Some(Begin)
    else if code == 2 then Some(Middle)
    else if code == 3 then Some(End)
    else None
  }

  function PayloadSize(u: Ump): bv32 { (u.d0 >> 16) & 0xF }

  predicate IsSysEx7Packet(u: Ump) {
    MessageKind(u) == MT_DATA_64 && PayloadSize(u) <= 6 && SysExStatusOf(u).Some?
  }

  predicate StartsMessage(s: SysExStatus) { s == Complete || s == Begin }
  predicate EndsMessage(s: SysExStatus) { s == Complete || s == End }

  function SizeCode(size: nat): bv32
    requires size <= 6
  {
    if size == 0 then 0 else if size == 1 then 1 else if size == 2 then 2 else if size == 3 then 3
    else if size == 4 then 4 else if size == 5 then 5 else 6
  }

  function SizeOf(code: bv32): nat
    requires code <= 6
  {
    if code == 0 then 0 else if code == 1 then 1 else if code == 2 then 2 else if code == 3 then 3
    else if code == 4 then 4 else if code == 5 then 5 else 6
  }

  function SysEx7Header(group: bv8, status: SysExStatus, size: nat): bv32
    requires size <= 6
  {
    (MT_DATA_64 << 28) | (((group & 0xF) as bv32) << 24) | (StatusCode(status) << 20) | (SizeCode(size) << 16)
  }

  /** Bit position of SysEx7 payload byte `index`: two bytes end the first word, four fill the second. */
  function LaneShift(index: nat): bv32
    requires index < 6
    ensures LaneShift(index) <= 24
  {
    if index == 0 then 8 else if index == 1 then 0
    else if index == 2 then 24 else if index == 3 then 16 else if index == 4 then 8 else 0
  }

  function OrByte(word: bv32, shift: bv32, data: bv8): bv32
    requires shift <= 24
  {
    word | (((data & 0x7F) as bv32) << shift)
  }

  function ByteAt(word: bv32, shift: bv32): bv8
    requires shift <= 24
  {
    ((word >> shift) & 0x7F) as bv8
  }

  function WriteLane(u: Ump, index: nat, data: bv8): Ump
    requires index < 6
  {
    if index < 2 then u.(d0 := OrByte(u.d0, LaneShift(index), data))
    else u.(d1 := OrByte(u.d1, LaneShift(index), data))
  }

  function ReadLane(u: Ump, index: nat): bv8
    requires index < 6
  {
    if index < 2 then ByteAt(u.d0, LaneShift(index)) else ByteAt(u.d1, LaneShift(index))
  }

  /** The first `size` payload bytes. */
  function Lanes(u: Ump, size: nat): (r: seq<bv8>)
    requires size <= 6
    ensures |r| == size
  {
    seq(size, i requires 0 <= i < size => ReadLane(u, i))
  }

  lemma PacketHasStatus(u: Ump)
    requires IsSysEx7Packet(u)
    ensures SysExStatusOf(u).Some? && PayloadSize(u) <= 6
  {
  }

  /** The header with the payload bytes or-ed into their lanes, one after the other. */
  function Packed(header: bv32, chunk: seq<bv8>): Ump
    requires |chunk| <= 6
  {
    if chunk == [] then Ump(header, 0, 0, 0)
    else WriteLane(Packed(header, chunk[..|chunk| - 1]), |chunk| - 1, chunk[|chunk| - 1])
  }

  function SysExPacket(group: bv8, status: SysExStatus, chunk: seq<bv8>): Ump
    requires |chunk| <= 6
  {
    Packed(SysEx7Header(group, status, |chunk|), chunk)
  }

  predicate SevenBit(p: seq<bv8>) {
    forall i :: 0 <= i < |p| ==> p[i] < 0x80
  }

  function ChannelVoiceUmp(group: bv8, status: bv8, data1: bv8, data2: bv8): Ump {
    Ump((MT_CHANNEL_VOICE << 28) | (((group & 0xF) as bv32) << 24) | ((((status & 0xF0) >> 4) as bv32) << 20) |
        (((status & 0xF) as bv32) << 16) | (((data1 & 0x7F) as bv32) << 8) | ((data2 & 0x7F) as bv32), 0, 0, 0)
  }

  function SystemUmp(group: bv8, status: bv8, data1: bv8, data2: bv8): Ump {
    Ump((MT_SYSTEM << 28) | (((group & 0xF) as bv32) << 24) | ((status as bv32) << 16) |
        (((data1 & 0x7F) as bv32) << 8) | ((data2 & 0x7F) as bv32), 0, 0, 0)
  }

  // ---------------------------------------------------------------- fields read back

  lemma ChannelVoiceFields(group: bv8, status: bv8, data1: bv8, data2: bv8)
    requires group < 16 && data1 < 0x80 && data2 < 0x80
    ensures
      var u := ChannelVoiceUmp(group, status, data1, data2);
      && MessageKind(u) == MT_CHANNEL_VOICE && Group(u) == group
      && MidiStatus(u) == status && Data1(u) == data1 && Data2(u) == data2
  {
  }

  lemma SystemFields(group: bv8, status: bv8, data1: bv8, data2: bv8)
    requires group < 16 && data1 < 0x80 && data2 < 0x80
    ensures
      var u := SystemUmp(group, status, data1, data2);
      && MessageKind(u) == MT_SYSTEM && Group(u) == group
      && MidiStatus(u) == status && Data1(u) == data1 && Data2(u) == data2
  {
  }

  predicate LaneBoundary(shift: bv32) {
    shift in {0, 8, 16, 24}
  }

  lemma DisjointLanes(w: bv32, byte: bv32, s: bv32, t: bv32)
    requires byte < 0x80 && s in {0, 8, 16, 24} && t in {0, 8, 16, 24} && s != t
    ensures ((w | (byte << s)) >> t) & 0x7F == (w >> t) & 0x7F
  {
  }

  lemma WordIsolation(w: bv32, s: bv32, t: bv32, data: bv8)
    requires LaneBoundary(s) && LaneBoundary(t) && s != t
    ensures ByteAt(OrByte(w, s, data), t) == ByteAt(w, t)
  {
    DisjointLanes(w, (data & 0x7F) as bv32, s, t);
  }

  lemma WordWritten(w: bv32, s: bv32, data: bv8)
    requires data < 0x80 && LaneBoundary(s) && ByteAt(w, s) == 0
    ensures ByteAt(OrByte(w, s, data), s) == data
  {
  }

  /** The header fields of the first word. */
  function HighHalf(w: bv32): bv32 {
    w & 0xFFFF_0000
  }

  lemma WordHigh(w: bv32, s: bv32, data: bv8)
    requires s in {0, 8}
    ensures HighHalf(OrByte(w, s, data)) == HighHalf(w)
  {
  }

  lemma LaneShifts(index: nat, other: nat)
    requires index < 6 && other < 6
    ensures LaneBoundary(LaneShift(index))
    ensures index < 2 ==> LaneShift(index) in {0, 8}
    ensures index != other && (index < 2) == (other < 2) ==> LaneShift(index) != LaneShift(other)
  {
  }

  /** Writing a lane leaves the header bits and the other lanes alone. */
  lemma LaneIsolation(u: Ump, index: nat, other: nat, data: bv8)
    requires index < 6 && other < 6 && other != index
    ensures ReadLane(WriteLane(u, index, data), other) == ReadLane(u, other)
    ensures HighHalf(WriteLane(u, index, data).d0) == HighHalf(u.d0)
  {
    hide OrByte, ByteAt, LaneShift, HighHalf, LaneBoundary;
    LaneShifts(index, other);
    LaneShifts(other, index);
    if index < 2 {
      WordHigh(u.d0, LaneShift(index), data);
      if other < 2 {
        WordIsolation(u.d0, LaneShift(index), LaneShift(other), data);
      }
    } else if other >= 2 {
      WordIsolation(u.d1, LaneShift(index), LaneShift(other), data);
    }
  }

  lemma LaneWritten(u: Ump, index: nat, data: bv8)
    requires index < 6 && data < 0x80 && ReadLane(u, index) == 0
    ensures ReadLane(WriteLane(u, index, data), index) == data
    ensures HighHalf(WriteLane(u, index, data).d0) == HighHalf(u.d0)
  {
    hide OrByte, ByteAt, LaneShift, HighHalf, LaneBoundary;
    LaneShifts(index, index);
    if index < 2 {
      WordHigh(u.d0, LaneShift(index), data);
      WordWritten(u.d0, LaneShift(index), data);
    } else {
      WordWritten(u.d1, LaneShift(index), data);
    }
  }

  lemma HeaderLanesEmpty(group: bv8, status: SysExStatus, size: nat, index: nat)
    requires size <= 6 && index < 6
    ensures ReadLane(Ump(SysEx7Header(group, status, size), 0, 0, 0), index) == 0
  {
  }

  lemma HeaderFields(group: bv8, status: SysExStatus, size: nat, u: Ump)
    requires group < 16 && size <= 6
    requires HighHalf(u.d0) == HighHalf(SysEx7Header(group, status, size))
    ensures IsSysEx7Packet(u) && Group(u) == group
    ensures SysExStatusOf(u) == Some(status) && PayloadSize(u) == SizeCode(size) && SizeOf(PayloadSize(u)) == size
  {
  }

  /** Packing: every lane holds its byte, the lanes beyond stay empty, the header is intact. */
  lemma {:induction false} PackedLanes(group: bv8, status: SysExStatus, size: nat, chunk: seq<bv8>, index: nat)
    requires |chunk| <= size <= 6 && SevenBit(chunk) && index < 6
    ensures
      var u := Packed(SysEx7Header(group, status, size), chunk);
      && ReadLane(u, index) == (if index < |chunk| then chunk[index] else 0)
      && HighHalf(u.d0) == HighHalf(SysEx7Header(group, status, size))
    decreases |chunk|
  {
    if chunk == [] {
      HeaderLanesEmpty(group, status, size, index);
    } else {
      var n := |chunk| - 1;
      var rest := chunk[..n];
      var u := Packed(SysEx7Header(group, status, size), rest);
      PackedLanes(group, status, size, rest, index);
      if index == n {
        LaneWritten(u, n, chunk[n]);
      } else {
        LaneIsolation(u, n, index, chunk[n]);
      }
    }
  }

  /** A SysEx7 packet gives back its group, status, size and payload bytes. */
  lemma SysExPacketFields(group: bv8, status: SysExStatus, chunk: seq<bv8>)
    requires group < 16 && |chunk| <= 6 && SevenBit(chunk)
    ensures
      var u := SysExPacket(group, status, chunk);
      && IsSysEx7Packet(u) && Group(u) == group
      && SysExStatusOf(u) == Some(status) && SizeOf(PayloadSize(u)) == |chunk|
      && forall i :: 0 <= i < |chunk| ==> ReadLane(u, i) == chunk[i]
  {
    var u := SysExPacket(group, status, chunk);
    PackedLanes(group, status, |chunk|, chunk, 0);
    HeaderFields(group, status, |chunk|, u);
    forall i | 0 <= i < |chunk| ensures ReadLane(u, i) == chunk[i] {
      PackedLanes(group, status, |chunk|, chunk, i);
    }
  }
}
