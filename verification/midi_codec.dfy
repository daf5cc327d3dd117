/**
 The MIDI 1 byte stream and UMP as two representations of the same messages: the stateful parser and
 the printer as value-level functions, and the laws that tie them together.
 */
module MidiCodec {
  import opened Prelude
  import opened MidiUmp

  // ---------------------------------------------------------------- the parser

  datatype Parser = Parser(
    pending: seq<bv8>,
    pendingIndex: nat,
    expectedSize: nat,
    running: bv8,
    buffer: seq<bv8>,
    sysexSize: nat,
    active: bool,
    multiPacket: bool)

  /** What holds of the parser between any two bytes. */
  predicate Ready(p: Parser) {
    && |p.pending| == 3 && |p.buffer| == 6 && p.sysexSize <= 6
    && (p.pendingIndex == 0 || p.pendingIndex < p.expectedSize <= 3)
  }

  const INITIAL := Parser([0, 0, 0], 0, 0, 0, [0, 0, 0, 0, 0, 0], 0, false, false)

  /** Bytes of a message that starts with a status of this type; 0 when no message does. */
  function MessageSize(t: MessageType): nat {
    match t
    case ProgramChange => 2
    case AfterTouchChannel => 2
    case TimeCodeQuarterFrame => 2
    case SongSelect => 2
    case NoteOn => 3
    case NoteOff => 3
    case ControlChange => 3
    case PitchBend => 3
    case AfterTouchPoly => 3
    case SongPosition => 3
    case _ => 0
  }

  function CompleteMessage(p: Parser, group: bv8): (r: (Parser, Option<Ump>))
    requires Ready(p) || (|p.pending| == 3 && |p.buffer| == 6 && p.sysexSize <= 6)
    ensures Ready(r.0)
  {
    var status := p.pending[0];
    var data1 := if p.expectedSize > 1 then p.pending[1] else 0;
    var data2 := if p.expectedSize > 2 then p.pending[2] else 0;
    var q := p.(pendingIndex := 0, expectedSize := 0);
    if status < MIDI_SYSTEM_MESSAGE_MIN
    then (q.(running := status), Some(ChannelVoiceUmp(group, status, data1, data2)))
    else (q.(running := 0), Some(SystemUmp(group, status, data1, data2)))
  }

  function FlushSysEx(p: Parser, group: bv8, status: SysExStatus): (r: (Parser, Option<Ump>))
    requires Ready(p)
    ensures Ready(r.0)
  {
    (p.(sysexSize := 0), Some(SysExPacket(group, status, p.buffer[..p.sysexSize])))
  }

  function PushSysEx(p: Parser, data: bv8): (r: Parser)
    requires Ready(p) && p.sysexSize < 6
    ensures Ready(r)
  {
    p.(buffer := p.buffer[p.sysexSize := data & 0x7F], sysexSize := p.sysexSize + 1)
  }

  function ParseSysExByte(p: Parser, data: bv8, group: bv8): (r: (Parser, Option<Ump>))
    requires Ready(p) && data != SYS_EX_START && p.active
    ensures Ready(r.0)
    decreases 1, 0
  {
    if data == SYS_EX_END then
      FlushSysEx(p.(active := false), group, if p.multiPacket then End else Complete)
    else if data >= MIDI_STATUS_MIN then ParseIdle(INITIAL, data, group)
    else if p.sysexSize == 6 then
      var (q, packet) := FlushSysEx(p, group, if p.multiPacket then Middle else Begin);
      (PushSysEx(q.(multiPacket := true), data), packet)
    else (PushSysEx(p, data), None)
  }

  /** The parser outside SysEx, at a message boundary. */
  function ParseIdle(p: Parser, data: bv8, group: bv8): (r: (Parser, Option<Ump>))
    requires Ready(p) && data != SYS_EX_START && p.pendingIndex == 0
    ensures Ready(r.0)
    decreases 0, 0
  {
    var q :=
      if data < MIDI_STATUS_MIN && IsChannelMessage(TypeFromStatusByte(p.running))
      then p.(pending := p.pending[0 := p.running][1 := data], pendingIndex := 2)
      else p.(pending := p.pending[0 := data], pendingIndex := 1);
    var t := TypeFromStatusByte(q.pending[0]);
    if IsSingleByte(t) then
      (q.(pendingIndex := 0, expectedSize := 0), Some(SystemUmp(group, q.pending[0], 0, 0)))
    else if MessageSize(t) == 0 then (INITIAL, None)
    else
      var e := q.(expectedSize := MessageSize(t));
      if e.pendingIndex >= e.expectedSize then CompleteMessage(e, group) else (e, None)
  }

  function Parse(p: Parser, data: bv8, group: bv8): (r: (Parser, Option<Ump>))
    requires Ready(p)
    ensures Ready(r.0)
  {
    if data == SYS_EX_START then
      (p.(pendingIndex := 0, expectedSize := 0, running := 0, sysexSize := 0, active := true, multiPacket := false),
       None)
    else if p.active then ParseSysExByte(p, data, group)
    else if p.pendingIndex == 0 then ParseIdle(p, data, group)
    else if data >= MIDI_STATUS_MIN then ParseIdle(INITIAL, data, group)
    else
      var q := p.(pending := p.pending[p.pendingIndex := data], pendingIndex := p.pendingIndex + 1);
      if q.pendingIndex >= q.expectedSize then CompleteMessage(q, group) else (q, None)
  }

  function Emitted(o: Option<Ump>): seq<Ump> {
    if o.Some? then [o.value] else []
  }

  /** All packets a byte sequence makes the parser emit. */
  function ParseAll(p: Parser, bytes: seq<bv8>, group: bv8): (r: (Parser, seq<Ump>))
    requires Ready(p)
    ensures Ready(r.0)
    decreases |bytes|
  {
    if bytes == [] then (p, [])
    else
      var (q, o) := Parse(p, bytes[0], group);
      var (r, rest) := ParseAll(q, bytes[1..], group);
      (r, Emitted(o) + rest)
  }

  lemma {:induction false} ParseAppend(p: Parser, a: seq<bv8>, b: seq<bv8>, group: bv8)
    requires Ready(p)
    ensures
      var (q, first) := ParseAll(p, a, group);
      var (r, second) := ParseAll(q, b, group);
      ParseAll(p, a + b, group) == (r, first + second)
    decreases |a|
  {
    hide Parse;
    if a == [] {
      assert a + b == b;
      assert [] + ParseAll(p, b, group).1 == ParseAll(p, b, group).1;
    } else {
      var (p1, o) := Parse(p, a[0], group);
      assert (a + b)[0] == a[0] && (a + b)[1..] == a[1..] + b;
      ParseAppend(p1, a[1..], b, group);
      var (q, rest) := ParseAll(p1, a[1..], group);
      var second := ParseAll(q, b, group).1;
      assert Emitted(o) + (rest + second) == (Emitted(o) + rest) + second;
    }
  }

  // ---------------------------------------------------------------- the printer

  /** The MIDI 1 bytes of one packet; None when the packet is refused. */
  function Print(u: Ump, group: bv8): Option<seq<bv8>> {
    if Group(u) != group then None
    else if MessageKind(u) == MT_CHANNEL_VOICE then
      var t := TypeFromStatusByte(MidiStatus(u));
      Some([MidiStatus(u), Data1(u)] + (if t != ProgramChange && t != AfterTouchChannel then [Data2(u)] else []))
    else if MessageKind(u) == MT_SYSTEM then
      match TypeFromStatusByte(MidiStatus(u))
      case TimeCodeQuarterFrame => Some([MidiStatus(u), Data1(u)])
      case SongSelect => Some([MidiStatus(u), Data1(u)])
      case SongPosition => Some([MidiStatus(u), Data1(u), Data2(u)])
      case _ => Some([MidiStatus(u)])
    else if MessageKind(u) == MT_DATA_64 then
      if !IsSysEx7Packet(u) then None
      else
        var status := SysExStatusOf(u).value;
        Some((if StartsMessage(status) then [SYS_EX_START] else []) + Lanes(u, SizeOf(PayloadSize(u))) +
             (if EndsMessage(status) then [SYS_EX_END] else []))
    else None
  }

  function PrintAll(us: seq<Ump>, group: bv8): Option<seq<bv8>> {
    if us == [] then Some([])
    else if Print(us[0], group).None? || PrintAll(us[1..], group).None? then None
    else Some(Print(us[0], group).value + PrintAll(us[1..], group).value)
  }

  lemma {:induction false} PrintAppend(a: seq<Ump>, b: seq<Ump>, group: bv8)
    requires PrintAll(a, group).Some? && PrintAll(b, group).Some?
    ensures PrintAll(a + b, group) == Some(PrintAll(a, group).value + PrintAll(b, group).value)
    decreases |a|
  {
    hide Print;
    if a == [] {
      assert a + b == b;
      assert [] + PrintAll(b, group).value == PrintAll(b, group).value;
    } else {
      assert (a + b)[0] == a[0] && (a + b)[1..] == a[1..] + b;
      PrintAppend(a[1..], b, group);
      var x, y, z := Print(a[0], group).value, PrintAll(a[1..], group).value, PrintAll(b, group).value;
      assert x + (y + z) == (x + y) + z;
    }
  }

  // ---------------------------------------------------------------- messages, independent of either form

  datatype Message =
    | Voice(status: bv8, data1: bv8, data2: bv8)
    | System(status: bv8, data1: bv8, data2: bv8)
    | Exclusive(payload: seq<bv8>)

  /** Program change and channel pressure carry one data byte, the other channel messages two. */
  predicate IsShort(status: bv8) {
    status & 0xF0 == 0xC0 || status & 0xF0 == 0xD0
  }

  predicate Canonical(m: Message) {
    match m
    case Voice(status, data1, data2) =>
      0x80 <= status < 0xF0 && data1 < 0x80 && data2 < 0x80 && (IsShort(status) ==> data2 == 0)
    case System(status, data1, data2) =>
      && status in {0xF1, 0xF2, 0xF3, 0xF6, 0xF8, 0xFA, 0xFB, 0xFC, 0xFE, 0xFF}
      && data1 < 0x80 && data2 < 0x80
      && (status != 0xF2 ==> data2 == 0)
      && (status !in {0xF1, 0xF2, 0xF3} ==> data1 == 0)
    case Exclusive(payload) => SevenBit(payload)
  }

  /** The packets of a SysEx payload cut at six bytes. */
  function Chain(group: bv8, payload: seq<bv8>, first: bool := true): seq<Ump>
    decreases |payload|
  {
    if |payload| <= 6 then [SysExPacket(group, if first then Complete else End, payload)]
    else
      [SysExPacket(group, if first then Begin else Middle, payload[..6])] + Chain(group, payload[6..], false)
  }

  function Umps(group: bv8, m: Message): seq<Ump> {
    match m
    case Voice(status, data1, data2) => [ChannelVoiceUmp(group, status, data1, data2)]
    case System(status, data1, data2) => [SystemUmp(group, status, data1, data2)]
    case Exclusive(payload) => Chain(group, payload)
  }

  /** The bytes of a message on a MIDI 1 wire. */
  function Wire(m: Message): seq<bv8> {
    match m
    case Voice(status, data1, data2) => if IsShort(status) then [status, data1] else [status, data1, data2]
    case System(status, data1, data2) =>
      if status == 0xF2 then [status, data1, data2]
      else if status == 0xF1 || status == 0xF3 then [status, data1]
      else [status]
    case Exclusive(payload) => [SYS_EX_START] + payload + [SYS_EX_END]
  }

  function AllUmps(group: bv8, ms: seq<Message>): seq<Ump> {
    if ms == [] then [] else Umps(group, ms[0]) + AllUmps(group, ms[1..])
  }

  function AllWire(ms: seq<Message>): seq<bv8> {
    if ms == [] then [] else Wire(ms[0]) + AllWire(ms[1..])
  }

  predicate AllCanonical(ms: seq<Message>) {
    forall i :: 0 <= i < |ms| ==> Canonical(ms[i])
  }

  // ---------------------------------------------------------------- printing

  lemma HighNibble(status: bv8)
    requires 0x80 <= status < 0xF0
    ensures status & 0xF0 in {0x80, 0x90, 0xA0, 0xB0, 0xC0, 0xD0, 0xE0}
    ensures status !in {0xF4, 0xF5, 0xF9, 0xFD}
  {
  }

  lemma ChannelTypes(status: bv8)
    requires 0x80 <= status < 0xF0
    ensures IsChannelMessage(TypeFromStatusByte(status))
    ensures !IsSingleByte(TypeFromStatusByte(status))
    ensures TypeFromStatusByte(status) in {ProgramChange, AfterTouchChannel} <==> IsShort(status)
    ensures MessageSize(TypeFromStatusByte(status)) == if IsShort(status) then 2 else 3
  {
    HighNibble(status);
  }

  lemma PrintOne(u: Ump, group: bv8)
    requires Print(u, group).Some?
    ensures PrintAll([u], group) == Print(u, group)
  {
    hide Print;
    assert [u][0] == u && [u][1..] == [];
    assert Print(u, group).value + [] == Print(u, group).value;
  }

  lemma PrintVoice(group: bv8, m: Message)
    requires group < 16 && m.Voice? && Canonical(m)
    ensures PrintAll(Umps(group, m), group) == Some(Wire(m))
  {
    var u := ChannelVoiceUmp(group, m.status, m.data1, m.data2);
    PrintOneVoice(group, m);
    PrintOne(u, group);
  }

  lemma PrintOneVoice(group: bv8, m: Message)
    requires group < 16 && m.Voice? && Canonical(m)
    ensures Print(ChannelVoiceUmp(group, m.status, m.data1, m.data2), group) == Some(Wire(m))
  {
    hide ChannelVoiceUmp, MessageKind, Group, MidiStatus, Data1, Data2, TypeFromStatusByte, IsShort;
    ChannelVoiceFields(group, m.status, m.data1, m.data2);
    ChannelTypes(m.status);
    assert [m.status, m.data1] + [m.data2] == [m.status, m.data1, m.data2];
    assert [m.status, m.data1] + [] == [m.status, m.data1];
  }

  lemma PrintSystem(group: bv8, m: Message)
    requires group < 16 && m.System? && Canonical(m)
    ensures PrintAll(Umps(group, m), group) == Some(Wire(m))
  {
    var u := SystemUmp(group, m.status, m.data1, m.data2);
    PrintOneSystem(group, m);
    PrintOne(u, group);
  }

  lemma PrintOneSystem(group: bv8, m: Message)
    requires group < 16 && m.System? && Canonical(m)
    ensures Print(SystemUmp(group, m.status, m.data1, m.data2), group) == Some(Wire(m))
  {
    hide SystemUmp, MessageKind, Group, MidiStatus, Data1, Data2;
    SystemFields(group, m.status, m.data1, m.data2);
  }

  lemma PrintSysExPacket(group: bv8, status: SysExStatus, chunk: seq<bv8>)
    requires group < 16 && |chunk| <= 6 && SevenBit(chunk)
    ensures
      Print(SysExPacket(group, status, chunk), group) ==
      Some((if StartsMessage(status) then [SYS_EX_START] else []) + chunk +
           (if EndsMessage(status) then [SYS_EX_END] else []))
  {
    SysExPacketFields(group, status, chunk);
    var u := SysExPacket(group, status, chunk);
    assert Lanes(u, |chunk|) == chunk;
  }

  lemma {:induction false} PrintChain(group: bv8, payload: seq<bv8>, first: bool)
    requires group < 16 && SevenBit(payload)
    ensures
      PrintAll(Chain(group, payload, first), group) ==
      Some((if first then [SYS_EX_START] else []) + payload + [SYS_EX_END])
    decreases |payload|
  {
    hide Print, SysExPacket;
    var start: seq<bv8> := if first then [SYS_EX_START] else [];
    if |payload| <= 6 {
      PrintSysExPacket(group, if first then Complete else End, payload);
      PrintOne(SysExPacket(group, if first then Complete else End, payload), group);
    } else {
      var chunk, rest := payload[..6], payload[6..];
      var u := SysExPacket(group, if first then Begin else Middle, chunk);
      PrintSysExPacket(group, if first then Begin else Middle, chunk);
      PrintOne(u, group);
      PrintChain(group, rest, false);
      PrintAppend([u], Chain(group, rest, false), group);
      assert payload == chunk + rest;
      assert (start + chunk + []) + ([] + rest + [SYS_EX_END]) == start + payload + [SYS_EX_END];
    }
  }

  lemma PrintMessage(group: bv8, m: Message)
    requires group < 16 && Canonical(m)
    ensures PrintAll(Umps(group, m), group) == Some(Wire(m))
  {
    match m {
      case Voice(_, _, _) => PrintVoice(group, m);
      case System(_, _, _) => PrintSystem(group, m);
      case Exclusive(payload) => PrintChain(group, payload, true);
    }
  }

  /** Printing a canonical packet stream gives its messages as they appear on a MIDI 1 wire. */
  lemma {:induction false} PrintStream(group: bv8, ms: seq<Message>)
    requires group < 16 && AllCanonical(ms)
    ensures PrintAll(AllUmps(group, ms), group) == Some(AllWire(ms))
    decreases |ms|
  {
    if ms != [] {
      assert Canonical(ms[0]);
      PrintMessage(group, ms[0]);
      PrintStream(group, ms[1..]);
      PrintAppend(Umps(group, ms[0]), AllUmps(group, ms[1..]), group);
    }
  }

  // ---------------------------------------------------------------- parsing

  /** At a message boundary, outside SysEx. */
  predicate Idle(p: Parser) {
    Ready(p) && p.pendingIndex == 0 && !p.active
  }

  /** A channel status byte opens a message whatever the parser was doing. */
  lemma AfterStatus(p: Parser, status: bv8, group: bv8)
    requires Ready(p) && 0x80 <= status < 0xF0
    ensures
      var (q, o) := Parse(p, status, group);
      && o == None && !q.active && q.pendingIndex == 1 && q.pending[0] == status
      && q.expectedSize == (if IsShort(status) then 2 else 3)
  {
    ChannelTypes(status);
  }

  lemma ParseOne(p: Parser, a: bv8, group: bv8)
    requires Ready(p)
    ensures ParseAll(p, [a], group) == (Parse(p, a, group).0, Emitted(Parse(p, a, group).1))
  {
    hide Parse;
    assert [a][0] == a && [a][1..] == [];
    assert Emitted(Parse(p, a, group).1) + [] == Emitted(Parse(p, a, group).1);
  }

  lemma ParseTwo(p: Parser, a: bv8, b: bv8, group: bv8)
    requires Ready(p)
    ensures
      var (q, x) := Parse(p, a, group);
      var (r, y) := Parse(q, b, group);
      ParseAll(p, [a, b], group) == (r, Emitted(x) + Emitted(y))
  {
    hide Parse;
    var (q, x) := Parse(p, a, group);
    ParseOne(q, b, group);
    assert [a, b][0] == a && [a, b][1..] == [b];
  }

  lemma ParseThree(p: Parser, a: bv8, b: bv8, c: bv8, group: bv8)
    requires Ready(p)
    ensures
      var (q, x) := Parse(p, a, group);
      var (r, y) := Parse(q, b, group);
      var (s, z) := Parse(r, c, group);
      ParseAll(p, [a, b, c], group) == (s, Emitted(x) + (Emitted(y) + Emitted(z)))
  {
    hide Parse;
    assert [a, b, c][0] == a && [a, b, c][1..] == [b, c];
    ParseTwo(Parse(p, a, group).0, b, c, group);
  }

  /** The data byte after a status byte: the last one of a short message, the first of a long one. */
  lemma FirstDataByte(q: Parser, data: bv8, group: bv8)
    requires Ready(q) && !q.active && q.pendingIndex == 1 && q.pending[0] < 0xF0 && data < 0x80
    ensures
      var (r, o) := Parse(q, data, group);
      if q.expectedSize == 2 then
        && o == Some(ChannelVoiceUmp(group, q.pending[0], data, 0)) && Idle(r) && r.running == q.pending[0]
      else
        && o == None && !r.active && r.pendingIndex == 2 && r.expectedSize == 3
        && r.pending[0] == q.pending[0] && r.pending[1] == data
  {
    hide ChannelVoiceUmp, TypeFromStatusByte, ParseIdle;
  }

  lemma ParseVoice(p: Parser, m: Message, group: bv8)
    requires Ready(p) && m.Voice? && Canonical(m)
    ensures
      var (q, us) := ParseAll(p, Wire(m), group);
      us == Umps(group, m) && Idle(q) && q.running == m.status
  {
    hide ChannelVoiceUmp, Parse, IsShort;
    AfterStatus(p, m.status, group);
    var q := Parse(p, m.status, group).0;
    FirstDataByte(q, m.data1, group);
    if IsShort(m.status) {
      ParseTwo(p, m.status, m.data1, group);
    } else {
      LastDataByte(Parse(q, m.data1, group).0, m.data2, group);
      ParseThree(p, m.status, m.data1, m.data2, group);
    }
  }

  /** The first data byte under running status. */
  lemma FirstRunningByte(p: Parser, data: bv8, group: bv8)
    requires Idle(p) && 0x80 <= p.running < 0xF0 && data < 0x80
    ensures
      var (q, o) := Parse(p, data, group);
      if IsShort(p.running) then
        o == Some(ChannelVoiceUmp(group, p.running, data, 0)) && Idle(q) && q.running == p.running
      else
        && o == None && !q.active && q.pendingIndex == 2 && q.expectedSize == 3
        && q.pending[0] == p.running && q.pending[1] == data
  {
    hide ChannelVoiceUmp, TypeFromStatusByte, IsShort;
    ChannelTypes(p.running);
  }

  lemma LastDataByte(q: Parser, data: bv8, group: bv8)
    requires Ready(q) && !q.active && q.pendingIndex == 2 && q.expectedSize == 3 && q.pending[0] < 0xF0 && data < 0x80
    ensures
      var (r, o) := Parse(q, data, group);
      && o == Some(ChannelVoiceUmp(group, q.pending[0], q.pending[1], data))
      && Idle(r) && r.running == q.pending[0]
  {
    hide ChannelVoiceUmp, TypeFromStatusByte, ParseIdle;
  }

  /** The same message without its status byte, when that is the running status. */
  lemma ParseRunningVoice(p: Parser, m: Message, group: bv8)
    requires Idle(p) && m.Voice? && Canonical(m) && p.running == m.status
    ensures
      var (q, us) := ParseAll(p, Wire(m)[1..], group);
      us == Umps(group, m) && Idle(q) && q.running == m.status
  {
    hide Parse, ChannelVoiceUmp, IsShort;
    FirstRunningByte(p, m.data1, group);
    if IsShort(m.status) {
      assert Wire(m)[1..] == [m.data1];
      ParseOne(p, m.data1, group);
    } else {
      assert Wire(m)[1..] == [m.data1, m.data2];
      LastDataByte(Parse(p, m.data1, group).0, m.data2, group);
      ParseTwo(p, m.data1, m.data2, group);
    }
  }

  lemma CommonTypes(status: bv8)
    requires status in {0xF1, 0xF2, 0xF3}
    ensures status >= 0x80 && status != SYS_EX_START && status != SYS_EX_END
    ensures !IsSingleByte(TypeFromStatusByte(status))
    ensures MessageSize(TypeFromStatusByte(status)) == if status == 0xF2 then 3 else 2
  {
  }

  /** A system status byte opens a message whatever the parser was doing. */
  lemma AfterCommonStatus(p: Parser, status: bv8, group: bv8)
    requires Ready(p) && status in {0xF1, 0xF2, 0xF3}
    ensures
      var (q, o) := Parse(p, status, group);
      && o == None && !q.active && q.pendingIndex == 1 && q.pending[0] == status
      && q.expectedSize == (if status == 0xF2 then 3 else 2)
  {
    hide SystemUmp, TypeFromStatusByte, IsSingleByte, MessageSize;
    CommonTypes(status);
  }

  /** The data byte that ends a two-byte system message, or the first of song position. */
  lemma FirstCommonByte(q: Parser, data: bv8, group: bv8)
    requires Ready(q) && !q.active && q.pendingIndex == 1 && q.pending[0] >= 0xF0 && data < 0x80
    ensures
      var (r, o) := Parse(q, data, group);
      if q.expectedSize == 2 then o == Some(SystemUmp(group, q.pending[0], data, 0)) && Idle(r)
      else
        && o == None && !r.active && r.pendingIndex == 2 && r.expectedSize == 3
        && r.pending[0] == q.pending[0] && r.pending[1] == data
  {
    hide SystemUmp, ParseIdle;
  }

  lemma LastCommonByte(q: Parser, data: bv8, group: bv8)
    requires Ready(q) && !q.active && q.pendingIndex == 2 && q.expectedSize == 3 && q.pending[0] >= 0xF0 && data < 0x80
    ensures
      var (r, o) := Parse(q, data, group);
      o == Some(SystemUmp(group, q.pending[0], q.pending[1], data)) && Idle(r)
  {
    hide SystemUmp, ParseIdle;
  }

  /** A single-byte system message, whatever the parser was doing. */
  lemma AfterSingleByte(p: Parser, status: bv8, group: bv8)
    requires Ready(p) && status in {0xF6, 0xF8, 0xFA, 0xFB, 0xFC, 0xFE, 0xFF}
    ensures
      var (q, o) := Parse(p, status, group);
      && o == Some(SystemUmp(group, status, 0, 0)) && Idle(q)
      && q.running == (if Idle(p) then p.running else 0)
  {
    hide SystemUmp, TypeFromStatusByte, IsSingleByte, MessageSize, IsChannelMessage;
    SingleTypes(status);
  }

  lemma SingleTypes(status: bv8)
    requires status in {0xF6, 0xF8, 0xFA, 0xFB, 0xFC, 0xFE, 0xFF}
    ensures status >= 0x80 && status != SYS_EX_START && status != SYS_EX_END
    ensures IsSingleByte(TypeFromStatusByte(status))
  {
  }

  lemma ParseSystem(p: Parser, m: Message, group: bv8)
    requires Ready(p) && m.System? && Canonical(m)
    ensures
      var (q, us) := ParseAll(p, Wire(m), group);
      && us == Umps(group, m) && Idle(q)
      && (Idle(p) && IsRealTime(m.status) ==> q.running == p.running)
  {
    hide SystemUmp, Parse;
    if m.status == 0xF2 {
      AfterCommonStatus(p, m.status, group);
      var q := Parse(p, m.status, group).0;
      FirstCommonByte(q, m.data1, group);
      LastCommonByte(Parse(q, m.data1, group).0, m.data2, group);
      ParseThree(p, m.status, m.data1, m.data2, group);
    } else if m.status == 0xF1 || m.status == 0xF3 {
      AfterCommonStatus(p, m.status, group);
      FirstCommonByte(Parse(p, m.status, group).0, m.data1, group);
      ParseTwo(p, m.status, m.data1, group);
    } else {
      AfterSingleByte(p, m.status, group);
      ParseOne(p, m.status, group);
    }
  }

  /** One payload byte: into the buffer, after the buffer has been sent off if it was full. */
  lemma PayloadByte(p: Parser, x: bv8, group: bv8)
    requires Ready(p) && p.active && x < 0x80 && p.pendingIndex == 0
    ensures
      var (q, o) := Parse(p, x, group);
      var held := p.buffer[..p.sysexSize];
      && q.active && q.pendingIndex == 0 && q.running == p.running
      && (p.sysexSize < 6 ==>
            o == None && q.multiPacket == p.multiPacket && q.buffer[..q.sysexSize] == held + [x])
      && (p.sysexSize == 6 ==>
            && o == Some(SysExPacket(group, if p.multiPacket then Middle else Begin, held))
            && q.multiPacket && q.buffer[..q.sysexSize] == [x])
  {
    hide SysExPacket, TypeFromStatusByte, ParseIdle, PushSysEx, Ready;
    ReadySizes(p);
    if p.sysexSize < 6 {
      PushFacts(p, x);
    } else {
      var q := FlushSysEx(p, group, if p.multiPacket then Middle else Begin).0.(multiPacket := true);
      PushFacts(q, x);
      assert q.buffer[..0] + [x] == [x];
    }
  }

  lemma ReadySizes(p: Parser)
    requires Ready(p)
    ensures |p.buffer| == 6 && p.sysexSize <= 6
    ensures Ready(p.(sysexSize := 0)) && Ready(p.(sysexSize := 0, multiPacket := true))
  {
  }

  lemma PushFacts(p: Parser, x: bv8)
    requires Ready(p) && p.sysexSize < 6 && x < 0x80
    ensures
      var q := PushSysEx(p, x);
      && q == p.(buffer := q.buffer, sysexSize := p.sysexSize + 1)
      && Ready(q) && q.buffer[..q.sysexSize] == p.buffer[..p.sysexSize] + [x]
  {
    SevenBitByte(x);
  }

  lemma PayloadEnd(p: Parser, group: bv8)
    requires Ready(p) && p.active && p.pendingIndex == 0
    ensures
      var (q, us) := ParseAll(p, [SYS_EX_END], group);
      && us == [SysExPacket(group, if p.multiPacket then End else Complete, p.buffer[..p.sysexSize])]
      && Idle(q) && q.running == p.running
  {
    hide SysExPacket, TypeFromStatusByte, ParseIdle;
    ParseOne(p, SYS_EX_END, group);
  }

  /** Inside SysEx: some bytes are in the buffer, `rest` is still to come. */
  lemma {:induction false} ParsePayload(p: Parser, rest: seq<bv8>, group: bv8)
    requires Ready(p) && p.active && SevenBit(rest) && p.pendingIndex == 0
    ensures
      var (q, us) := ParseAll(p, rest + [SYS_EX_END], group);
      && us == Chain(group, p.buffer[..p.sysexSize] + rest, !p.multiPacket)
      && Idle(q) && q.running == p.running
    decreases |rest|
  {
    hide SysExPacket, Parse, Chain, Ready;
    ReadySizes(p);
    var held := p.buffer[..p.sysexSize];
    if rest == [] {
      PayloadEnd(p, group);
      ShortChain(group, held, !p.multiPacket);
      assert rest + [SYS_EX_END] == [SYS_EX_END];
      assert held + rest == held;
    } else {
      var x := rest[0];
      var q := Parse(p, x, group).0;
      assert (rest + [SYS_EX_END])[0] == x && (rest + [SYS_EX_END])[1..] == rest[1..] + [SYS_EX_END];
      PayloadByte(p, x, group);
      ReadySizes(q);
      ParsePayload(q, rest[1..], group);
      assert [x] + rest[1..] == rest;
      if p.sysexSize < 6 {
        assert held + [x] + rest[1..] == held + rest;
      } else {
        LongChain(group, held, rest, !p.multiPacket);
      }
    }
  }

  lemma ShortChain(group: bv8, payload: seq<bv8>, first: bool)
    requires |payload| <= 6
    ensures Chain(group, payload, first) == [SysExPacket(group, if first then Complete else End, payload)]
  {
    hide SysExPacket;
  }

  lemma LongChain(group: bv8, chunk: seq<bv8>, rest: seq<bv8>, first: bool)
    requires |chunk| == 6 && rest != []
    ensures Chain(group, chunk + rest, first) ==
            [SysExPacket(group, if first then Begin else Middle, chunk)] + Chain(group, rest, false)
  {
    hide SysExPacket;
    assert (chunk + rest)[..6] == chunk && (chunk + rest)[6..] == rest;
  }

  lemma SevenBitByte(x: bv8)
    requires x < 0x80
    ensures x & 0x7F == x
  {
  }

  lemma ParseExclusive(p: Parser, payload: seq<bv8>, group: bv8)
    requires Ready(p) && SevenBit(payload)
    ensures
      var (q, us) := ParseAll(p, Wire(Exclusive(payload)), group);
      us == Chain(group, payload) && Idle(q)
  {
    var bytes := Wire(Exclusive(payload));
    var q := Parse(p, SYS_EX_START, group).0;
    assert bytes[0] == SYS_EX_START;
    assert bytes[1..] == payload + [SYS_EX_END];
    ParsePayload(q, payload, group);
    assert q.buffer[..0] + payload == payload;
  }

  // ---------------------------------------------------------------- running status

  /** The status a sender may leave out before the next channel message; real-time messages keep it. */
  function NextRunning(prev: Option<bv8>, m: Message): Option<bv8> {
    match m
    case Voice(status, _, _) => Some(status)
    case System(status, _, _) => if IsRealTime(status) then prev else None
    case Exclusive(_) => None
  }

  /** A message as sent: without its status byte if it repeats the running one and the sender drops it. */
  function Sent(prev: Option<bv8>, m: Message, drop: bool): seq<bv8> {
    if drop && m.Voice? && prev == Some(m.status) then Wire(m)[1..] else Wire(m)
  }

  /** A stream in which any of the repeated status bytes may have been left out, as `drops` says. */
  function SentAll(prev: Option<bv8>, ms: seq<Message>, drops: seq<bool>): seq<bv8>
    requires |drops| == |ms|
    decreases |ms|
  {
    if ms == [] then []
    else Sent(prev, ms[0], drops[0]) + SentAll(NextRunning(prev, ms[0]), ms[1..], drops[1..])
  }

  lemma ParseSent(p: Parser, prev: Option<bv8>, m: Message, drop: bool, group: bv8)
    requires Ready(p) && Canonical(m)
    requires prev.Some? ==> Idle(p) && p.running == prev.value
    ensures
      var (q, us) := ParseAll(p, Sent(prev, m, drop), group);
      && us == Umps(group, m) && Idle(q)
      && (NextRunning(prev, m).Some? ==> q.running == NextRunning(prev, m).value)
  {
    match m {
      case Voice(_, _, _) =>
        ParseVoice(p, m, group);
        if prev == Some(m.status) {
          ParseRunningVoice(p, m, group);
        }
      case System(_, _, _) => ParseSystem(p, m, group);
      case Exclusive(payload) => ParseExclusive(p, payload, group);
    }
  }

  /**
   Two encoders agree: the packets cut from a payload are the ones the parser emits on the payload framed
   by F0 and F7, from any state, and printing them gives that frame back.
   */
  lemma EncodersAgree(p: Parser, group: bv8, payload: seq<bv8>)
    requires Ready(p) && group < 16 && SevenBit(payload)
    ensures ParseAll(p, [SYS_EX_START] + payload + [SYS_EX_END], group).1 == Chain(group, payload)
    ensures PrintAll(Chain(group, payload), group) == Some([SYS_EX_START] + payload + [SYS_EX_END])
  {
    ParseExclusive(p, payload, group);
    PrintChain(group, payload, true);
  }

  /** Parsing what was sent gives back the packets, from any parser state and for any choice of dropped bytes. */
  lemma {:induction false} ParseStream(p: Parser, prev: Option<bv8>, ms: seq<Message>, drops: seq<bool>, group: bv8)
    requires Ready(p) && AllCanonical(ms) && |drops| == |ms|
    requires prev.Some? ==> Idle(p) && p.running == prev.value
    ensures ParseAll(p, SentAll(prev, ms, drops), group).1 == AllUmps(group, ms)
    decreases |ms|
  {
    if ms != [] {
      assert Canonical(ms[0]);
      var first := Sent(prev, ms[0], drops[0]);
      var next := NextRunning(prev, ms[0]);
      ParseSent(p, prev, ms[0], drops[0], group);
      var q := ParseAll(p, first, group).0;
      ParseStream(q, next, ms[1..], drops[1..], group);
      ParseAppend(p, first, SentAll(next, ms[1..], drops[1..]), group);
    }
  }

  lemma {:induction false} NothingDropped(prev: Option<bv8>, ms: seq<Message>, drops: seq<bool>)
    requires |drops| == |ms| && forall i :: 0 <= i < |drops| ==> !drops[i]
    ensures SentAll(prev, ms, drops) == AllWire(ms)
    decreases |ms|
  {
    if ms != [] {
      NothingDropped(NextRunning(prev, ms[0]), ms[1..], drops[1..]);
    }
  }

  /**
   Stream round trip: printing any canonical stream of one group and parsing the bytes, from whatever
   state the parser is in, gives exactly the stream back; and so does parsing the bytes that are left
   when any of the repeated channel status bytes are dropped.
   */
  lemma StreamRoundTrip(p: Parser, group: bv8, ms: seq<Message>, drops: seq<bool>)
    requires Ready(p) && group < 16 && AllCanonical(ms) && |drops| == |ms|
    ensures PrintAll(AllUmps(group, ms), group) == Some(AllWire(ms))
    ensures ParseAll(p, AllWire(ms), group).1 == AllUmps(group, ms)
    ensures ParseAll(p, SentAll(None, ms, drops), group).1 == AllUmps(group, ms)
  {
    PrintStream(group, ms);
    var none := seq(|ms|, _ => false);
    NothingDropped(None, ms, none);
    ParseStream(p, None, ms, none, group);
    ParseStream(p, None, ms, drops, group);
  }
}
