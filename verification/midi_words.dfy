/**
 The packets and the bytes of the codec bit by bit: every word written out with its own numbers, so that
 the layout is fixed by itself and not only by a reader that undoes the writer.
 */
module MidiWords {
  import opened Prelude
  import opened MidiUmp
  import opened MidiCodec

  /** Payload byte `i`, zero where there is none. */
  function ByteOr0(chunk: seq<bv8>, i: nat): bv32 {
    if i < |chunk| then chunk[i] as bv32 else 0
  }

  /** The first word under a header, and the second word: bytes from the top down. */
  function First(h: bv32, a: bv32, b: bv32): bv32 { h | (a << 8) | b }
  function Second(c: bv32, d: bv32, e: bv32, f: bv32): bv32 { (c << 24) | (d << 16) | (e << 8) | f }

  lemma NoBytes(h: bv32)
    ensures First(h, 0, 0) == h && Second(0, 0, 0, 0) == 0
  {
  }

  lemma First1(h: bv32, a: bv8)
    requires a < 0x80
    ensures OrByte(First(h, 0, 0), 8, a) == First(h, a as bv32, 0)
  {
  }

  lemma First2(h: bv32, a: bv32, b: bv8)
    requires b < 0x80
    ensures OrByte(First(h, a, 0), 0, b) == First(h, a, b as bv32)
  {
  }

  lemma Second1(c: bv8)
    requires c < 0x80
    ensures OrByte(Second(0, 0, 0, 0), 24, c) == Second(c as bv32, 0, 0, 0)
  {
  }

  lemma Second2(c: bv32, d: bv8)
    requires d < 0x80
    ensures OrByte(Second(c, 0, 0, 0), 16, d) == Second(c, d as bv32, 0, 0)
  {
  }

  lemma Second3(c: bv32, d: bv32, e: bv8)
    requires e < 0x80
    ensures OrByte(Second(c, d, 0, 0), 8, e) == Second(c, d, e as bv32, 0)
  {
  }

  lemma Second4(c: bv32, d: bv32, e: bv32, f: bv8)
    requires f < 0x80
    ensures OrByte(Second(c, d, e, 0), 0, f) == Second(c, d, e, f as bv32)
  {
  }

  lemma LaneShiftIs(i: nat)
    requires i < 6
    ensures LaneShift(i) == if i == 0 then 8 else if i == 1 then 0 else if i == 2 then 24 else if i == 3 then 16
                            else if i == 4 then 8 else 0
  {
  }

  /** Where a byte goes. */
  lemma LanePlace(u: Ump, i: nat, x: bv8)
    requires i < 6
    ensures
      WriteLane(u, i, x) ==
      if i == 0 then u.(d0 := OrByte(u.d0, 8, x)) else if i == 1 then u.(d0 := OrByte(u.d0, 0, x))
      else if i == 2 then u.(d1 := OrByte(u.d1, 24, x)) else if i == 3 then u.(d1 := OrByte(u.d1, 16, x))
      else if i == 4 then u.(d1 := OrByte(u.d1, 8, x)) else u.(d1 := OrByte(u.d1, 0, x))
  {
    hide OrByte, LaneShift;
    LaneShiftIs(i);
  }

  /** The last byte of a chunk is the only one its front does not have. */
  lemma Grown(chunk: seq<bv8>, i: nat)
    requires chunk != []
    ensures
      ByteOr0(chunk[..|chunk| - 1], i) == if i < |chunk| - 1 then ByteOr0(chunk, i) else 0
    ensures i == |chunk| - 1 ==> ByteOr0(chunk, i) == chunk[i] as bv32
    ensures i >= |chunk| ==> ByteOr0(chunk, i) == 0
  {
  }

  lemma {:induction false} PackedWords(h: bv32, chunk: seq<bv8>)
    requires |chunk| <= 6 && SevenBit(chunk)
    ensures Packed(h, chunk) ==
            Ump(First(h, ByteOr0(chunk, 0), ByteOr0(chunk, 1)),
                Second(ByteOr0(chunk, 2), ByteOr0(chunk, 3), ByteOr0(chunk, 4), ByteOr0(chunk, 5)), 0, 0)
    decreases |chunk|
  {
    hide First, Second, OrByte, WriteLane, ByteOr0;
    NoBytes(h);
    var n := |chunk|;
    if n == 0 {
      None0();
    } else {
      var rest := chunk[..n - 1];
      PackedWords(h, rest);
      Grown(chunk, 0);
      Grown(chunk, 1);
      Grown(chunk, 2);
      Grown(chunk, 3);
      Grown(chunk, 4);
      Grown(chunk, 5);
      NextByte(h, Packed(h, rest), n - 1, chunk[n - 1], ByteOr0(rest, 0), ByteOr0(rest, 1), ByteOr0(rest, 2),
               ByteOr0(rest, 3), ByteOr0(rest, 4), ByteOr0(rest, 5));
    }
  }

  lemma None0()
    ensures forall i: nat :: ByteOr0([], i) == 0
  {
  }

  /** Byte `n` goes where it belongs, the places from there on being empty. */
  lemma NextByte(
      h: bv32, u: Ump, n: nat, x: bv8, b0: bv32, b1: bv32, b2: bv32, b3: bv32, b4: bv32, b5: bv32)
    requires n < 6 && x < 0x80 && u == Ump(First(h, b0, b1), Second(b2, b3, b4, b5), 0, 0)
    requires n < 5 ==> b5 == 0
    requires n < 4 ==> b4 == 0
    requires n < 3 ==> b3 == 0
    requires n < 2 ==> b2 == 0
    requires n < 1 ==> b1 == 0
    requires [b0, b1, b2, b3, b4, b5][n] == 0
    ensures
      var y := x as bv32;
      WriteLane(u, n, x) ==
      Ump(First(h, if n == 0 then y else b0, if n == 1 then y else b1),
          Second(if n == 2 then y else b2, if n == 3 then y else b3, if n == 4 then y else b4,
                 if n == 5 then y else b5), 0, 0)
  {
    hide First, Second, OrByte, WriteLane;
    LanePlace(u, n, x);
    if n == 0 {
      First1(h, x);
    } else if n == 1 {
      First2(h, b0, x);
    } else if n == 2 {
      Second1(x);
    } else if n == 3 {
      Second2(b2, x);
    } else if n == 4 {
      Second3(b2, b3, x);
    } else {
      Second4(b2, b3, b4, x);
    }
  }

  /**
   A SysEx7 packet: 3, group, status and size in the top four digits, then the payload bytes from bit 15 of the
   first word and from bit 31 of the second down.
   */
  lemma SysExWords(group: bv8, status: SysExStatus, chunk: seq<bv8>)
    requires group < 16 && |chunk| <= 6 && SevenBit(chunk)
    ensures
      var u := SysExPacket(group, status, chunk);
      var code: bv32 := match status case Complete => 0 case Begin => 1 case Middle => 2 case End => 3;
      && u.d0 == 0x3000_0000 | ((group as bv32) << 24) | (code << 20) | ((|chunk| as bv32) << 16) |
                 (ByteOr0(chunk, 0) << 8) | ByteOr0(chunk, 1)
      && u.d1 == (ByteOr0(chunk, 2) << 24) | (ByteOr0(chunk, 3) << 16) | (ByteOr0(chunk, 4) << 8) | ByteOr0(chunk, 5)
      && u.d2 == 0 && u.d3 == 0
  {
    hide Packed, SysEx7Header, ByteOr0;
    PackedWords(SysEx7Header(group, status, |chunk|), chunk);
    HeaderWord(group, status, |chunk|);
  }

  lemma HeaderWord(group: bv8, status: SysExStatus, size: nat)
    requires group < 16 && size <= 6
    ensures
      var code: bv32 := match status case Complete => 0 case Begin => 1 case Middle => 2 case End => 3;
      SysEx7Header(group, status, size) ==
      0x3000_0000 | ((group as bv32) << 24) | (code << 20) | ((size as bv32) << 16)
  {
    SizeBits(size);
    GroupBits(group);
  }

  lemma GroupBits(group: bv8)
    requires group < 16
    ensures group & 0xF == group
  {
  }

  lemma SizeBits(size: nat)
    requires size <= 6
    ensures SizeCode(size) == size as bv32
  {
  }

  /** Reading a payload byte: bits 14 to 8 and 6 to 0 of the first word, then the four bytes of the second. */
  lemma LaneWords(u: Ump)
    ensures ReadLane(u, 0) == ((u.d0 >> 8) & 0x7F) as bv8 && ReadLane(u, 1) == (u.d0 & 0x7F) as bv8
    ensures ReadLane(u, 2) == ((u.d1 >> 24) & 0x7F) as bv8 && ReadLane(u, 3) == ((u.d1 >> 16) & 0x7F) as bv8
    ensures ReadLane(u, 4) == ((u.d1 >> 8) & 0x7F) as bv8 && ReadLane(u, 5) == (u.d1 & 0x7F) as bv8
  {
  }

  /** A channel message: 2, group, status byte and two data bytes, in that order from the top. */
  lemma VoiceWords(group: bv8, status: bv8, data1: bv8, data2: bv8)
    requires group < 16 && data1 < 0x80 && data2 < 0x80
    ensures ChannelVoiceUmp(group, status, data1, data2) ==
            Ump(0x2000_0000 | ((group as bv32) << 24) | ((status as bv32) << 16) | ((data1 as bv32) << 8) |
                (data2 as bv32), 0, 0, 0)
  {
  }

  /** A system message: 1, group, status byte and two data bytes. */
  lemma SystemWords(group: bv8, status: bv8, data1: bv8, data2: bv8)
    requires group < 16 && data1 < 0x80 && data2 < 0x80
    ensures SystemUmp(group, status, data1, data2) ==
            Ump(0x1000_0000 | ((group as bv32) << 24) | ((status as bv32) << 16) | ((data1 as bv32) << 8) |
                (data2 as bv32), 0, 0, 0)
  {
  }

  // ---------------------------------------------------------------- whole messages

  /** How many bytes a message has, by its first byte. */
  lemma SizeByStatus(status: bv8)
    ensures 0x80 <= status < 0xC0 ==> MessageSize(TypeFromStatusByte(status)) == 3
    ensures 0xC0 <= status < 0xE0 ==> MessageSize(TypeFromStatusByte(status)) == 2
    ensures 0xE0 <= status < 0xF0 ==> MessageSize(TypeFromStatusByte(status)) == 3
    ensures status == 0xF1 || status == 0xF3 ==> MessageSize(TypeFromStatusByte(status)) == 2
    ensures status == 0xF2 ==> MessageSize(TypeFromStatusByte(status)) == 3
    ensures status < 0x80 || status == 0xF0 || status >= 0xF4 ==> MessageSize(TypeFromStatusByte(status)) == 0
    ensures IsSingleByte(TypeFromStatusByte(status)) <==>
            status in {0xF6, 0xF8, 0xFA, 0xFB, 0xFC, 0xFE, 0xFF}
    ensures IsChannelMessage(TypeFromStatusByte(status)) <==> 0x80 <= status < 0xF0
  {
    if 0x80 <= status < 0xF0 {
      HighNibble(status);
      ShortRange(status);
      ChannelTypes(status);
    }
  }

  lemma ShortRange(status: bv8)
    ensures IsShort(status) <==> 0xC0 <= status < 0xE0
  {
  }

  /** A channel message on the wire comes out as one packet, whatever the parser was doing. */
  lemma VoiceParsed(p: Parser, status: bv8, data1: bv8, data2: bv8, group: bv8)
    requires Ready(p) && group < 16 && 0x80 <= status < 0xF0 && data1 < 0x80 && data2 < 0x80
    ensures
      var word := 0x2000_0000 | ((group as bv32) << 24) | ((status as bv32) << 16) | ((data1 as bv32) << 8);
      if 0xC0 <= status < 0xE0 then ParseAll(p, [status, data1], group).1 == [Ump(word | 0, 0, 0, 0)]
      else ParseAll(p, [status, data1, data2], group).1 == [Ump(word | (data2 as bv32), 0, 0, 0)]
  {
    hide ParseAll, Ready, ChannelVoiceUmp, IsShort;
    ShortRange(status);
    var m := Voice(status, data1, if IsShort(status) then 0 else data2);
    VoiceWords(group, status, data1, m.data2);
    ParseVoice(p, m, group);
  }

  /** A system message on the wire comes out as one packet. */
  lemma SystemParsed(p: Parser, status: bv8, data1: bv8, data2: bv8, group: bv8)
    requires Ready(p) && group < 16 && data1 < 0x80 && data2 < 0x80
    requires status in {0xF1, 0xF2, 0xF3, 0xF6, 0xF8, 0xFA, 0xFB, 0xFC, 0xFE, 0xFF}
    ensures
      var word := 0x1000_0000 | ((group as bv32) << 24) | ((status as bv32) << 16);
      if status == 0xF2 then
        ParseAll(p, [status, data1, data2], group).1 == [Ump(word | ((data1 as bv32) << 8) | (data2 as bv32), 0, 0, 0)]
      else if status == 0xF1 || status == 0xF3 then
        ParseAll(p, [status, data1], group).1 == [Ump(word | ((data1 as bv32) << 8) | 0, 0, 0, 0)]
      else ParseAll(p, [status], group).1 == [Ump(word | 0 | 0, 0, 0, 0)]
  {
    hide ParseAll, Ready, SystemUmp;
    var d1, d2 := if status <= 0xF3 then data1 else 0, if status == 0xF2 then data2 else 0;
    SystemWords(group, status, d1, d2);
    ParseSystem(p, System(status, d1, d2), group);
  }

  /** How many packets a payload is cut into. */
  function Packets(size: nat): nat {
    if size == 0 then 1 else (size + 5) / 6
  }

  lemma PacketsStep(size: nat)
    ensures size <= 6 ==> Packets(size) == 1
    ensures size > 6 ==> Packets(size) == Packets(size - 6) + 1
    ensures 6 * (Packets(size) - 1) <= size <= 6 * Packets(size)
  {
  }

  /** The status of packet `i` of `n`. */
  function PartStatus(first: bool, i: nat, n: nat): SysExStatus {
    if i == n - 1 then (if first && i == 0 then Complete else End) else if first && i == 0 then Begin else Middle
  }

  /** The payload bytes of packet `i` of `n`. */
  function Part(payload: seq<bv8>, i: nat, n: nat): seq<bv8>
    requires 6 * i <= |payload| && (i < n - 1 ==> 6 * i + 6 <= |payload|)
  {
    if i < n - 1 then payload[6 * i..6 * i + 6] else payload[6 * i..]
  }

  lemma PartOfRest(payload: seq<bv8>, i: nat, n: nat)
    requires 0 < i < n && 6 * i <= |payload| && (i < n - 1 ==> 6 * i + 6 <= |payload|)
    ensures Part(payload[6..], i - 1, n - 1) == Part(payload, i, n)
  {
  }

  /** A payload cut at six bytes: how many packets, and which bytes and status each of them has. */
  lemma {:induction false} ChainAt(group: bv8, payload: seq<bv8>, first: bool, i: nat)
    requires i < Packets(|payload|)
    ensures
      var us, n := Chain(group, payload, first), Packets(|payload|);
      && |us| == n && 6 * i <= |payload| && (i < n - 1 ==> 6 * i + 6 <= |payload|)
      && us[i] == SysExPacket(group, PartStatus(first, i, n), Part(payload, i, n))
    decreases |payload|
  {
    hide SysExPacket, Packets;
    var n := Packets(|payload|);
    PacketsStep(|payload|);
    if |payload| <= 6 {
      assert Part(payload, 0, 1) == payload;
    } else {
      var rest := payload[6..];
      PacketsStep(|rest|);
      ChainAt(group, rest, false, if i == 0 then 0 else i - 1);
      if i == 0 {
        assert Part(payload, 0, n) == payload[..6];
      } else {
        PartOfRest(payload, i, n);
      }
    }
  }

  /** The number of payload bytes in a header. */
  function SizeField(n: nat): bv32
    requires n <= 6
  {
    n as bv32
  }

  /** A SysEx7 packet by the numbers in it. */
  function Packet(group: bv8, code: bv32, size: bv32, a: bv32, b: bv32, c: bv32, d: bv32, e: bv32, f: bv32): Ump {
    Ump(0x3000_0000 | ((group as bv32) << 24) | (code << 20) | (size << 16) | (a << 8) | b,
        (c << 24) | (d << 16) | (e << 8) | f, 0, 0)
  }

  /** The code in the status field of packet `i` of `n`. */
  function PartCode(i: nat, n: nat): bv32 {
    if n == 1 then 0 else if i == 0 then 1 else if i < n - 1 then 2 else 3
  }

  lemma PartCodeIs(i: nat, n: nat)
    requires i < n
    ensures PartCode(i, n) ==
            match PartStatus(true, i, n) case Complete => 0 case Begin => 1 case Middle => 2 case End => 3
  {
  }

  /** The numbers in packet `i` of a payload that is cut at six bytes. */
  lemma ChainNumbers(group: bv8, payload: seq<bv8>, i: nat)
    requires group < 16 && SevenBit(payload) && i < Packets(|payload|)
    ensures
      var us, n := Chain(group, payload), Packets(|payload|);
      && |us| == n
      && 0 <= |payload| - 6 * i && (if i < n - 1 then |payload| - 6 * i >= 6 else |payload| - 6 * i <= 6)
      && us[i] == Packet(
           group, PartCode(i, n), SizeField(if i < n - 1 then 6 else |payload| - 6 * i),
           ByteOr0(payload, 6 * i), ByteOr0(payload, 6 * i + 1), ByteOr0(payload, 6 * i + 2),
           ByteOr0(payload, 6 * i + 3), ByteOr0(payload, 6 * i + 4), ByteOr0(payload, 6 * i + 5))
  {
    hide SysExPacket, Chain, ByteOr0, Packet, Part, Packets, PartStatus, PartCode, SevenBit, SizeField;
    var n := Packets(|payload|);
    PacketsStep(|payload|);
    ChainAt(group, payload, true, i);
    PartBytes(payload, i, n);
    PartCodeIs(i, n);
    PacketNumbers(group, PartStatus(true, i, n), Part(payload, i, n));
  }

  /**
   The words of a SysEx message: the parser, whatever it was doing, makes packet `i` of F0, the payload and F7 out
   of payload bytes 6i to 6i+5, and so does the packetiser.
   */
  lemma FrameWords(p: Parser, group: bv8, payload: seq<bv8>, i: nat)
    requires Ready(p) && group < 16 && SevenBit(payload)
    requires i < if payload == [] then 1 else (|payload| + 5) / 6
    ensures
      var us := ParseAll(p, [0xF0] + payload + [0xF7], group).1;
      && us == Chain(group, payload)
      && |us| == (if payload == [] then 1 else (|payload| + 5) / 6)
      && 0 <= |payload| - 6 * i && (if i < |us| - 1 then |payload| - 6 * i >= 6 else |payload| - 6 * i <= 6)
      && us[i] == Packet(
           group, if |us| == 1 then 0 else if i == 0 then 1 else if i < |us| - 1 then 2 else 3,
           SizeField(if i < |us| - 1 then 6 else |payload| - 6 * i),
           ByteOr0(payload, 6 * i), ByteOr0(payload, 6 * i + 1), ByteOr0(payload, 6 * i + 2),
           ByteOr0(payload, 6 * i + 3), ByteOr0(payload, 6 * i + 4), ByteOr0(payload, 6 * i + 5))
  {
    hide ParseAll, Ready, Chain, ByteOr0, Packet, SevenBit, SizeField;
    EncodersAgree(p, group, payload);
    ChainNumbers(group, payload, i);
  }

  lemma SizeFieldIs(n: nat)
    requires n <= 6
    ensures SizeField(n) == n as bv32
  {
  }

  /** A packet with what its first word has in the size field. */
  lemma PacketWith(group: bv8, status: SysExStatus, chunk: seq<bv8>, size: bv32)
    requires group < 16 && |chunk| <= 6 && SevenBit(chunk) && size == |chunk| as bv32
    ensures
      SysExPacket(group, status, chunk) ==
      Packet(group, match status case Complete => 0 case Begin => 1 case Middle => 2 case End => 3, size,
             ByteOr0(chunk, 0), ByteOr0(chunk, 1), ByteOr0(chunk, 2), ByteOr0(chunk, 3), ByteOr0(chunk, 4),
             ByteOr0(chunk, 5))
  {
    hide SysExPacket, ByteOr0;
    SysExWords(group, status, chunk);
  }

  lemma PacketNumbers(group: bv8, status: SysExStatus, chunk: seq<bv8>)
    requires group < 16 && |chunk| <= 6 && SevenBit(chunk)
    ensures
      SysExPacket(group, status, chunk) ==
      Packet(group, match status case Complete => 0 case Begin => 1 case Middle => 2 case End => 3, SizeField(|chunk|),
             ByteOr0(chunk, 0), ByteOr0(chunk, 1), ByteOr0(chunk, 2), ByteOr0(chunk, 3), ByteOr0(chunk, 4),
             ByteOr0(chunk, 5))
  {
    hide SysExPacket, ByteOr0, SizeField, Packet;
    SizeFieldIs(|chunk|);
    PacketWith(group, status, chunk, SizeField(|chunk|));
  }

  lemma PartBytes(payload: seq<bv8>, i: nat, n: nat)
    requires 6 * i <= |payload| && (if i < n - 1 then 6 * i + 6 <= |payload| else |payload| - 6 * i <= 6)
    requires SevenBit(payload)
    ensures
      var part := Part(payload, i, n);
      && SevenBit(part) && |part| == (if i < n - 1 then 6 else |payload| - 6 * i)
      && ByteOr0(part, 0) == ByteOr0(payload, 6 * i) && ByteOr0(part, 1) == ByteOr0(payload, 6 * i + 1)
      && ByteOr0(part, 2) == ByteOr0(payload, 6 * i + 2) && ByteOr0(part, 3) == ByteOr0(payload, 6 * i + 3)
      && ByteOr0(part, 4) == ByteOr0(payload, 6 * i + 4) && ByteOr0(part, 5) == ByteOr0(payload, 6 * i + 5)
  {
  }

  /** What the printer makes of a channel message, field by field. */
  lemma VoicePrinted(group: bv8, status: bv8, data1: bv8, data2: bv8)
    requires group < 16 && 0x80 <= status < 0xF0 && data1 < 0x80 && data2 < 0x80
    ensures
      var u := Ump(0x2000_0000 | ((group as bv32) << 24) | ((status as bv32) << 16) | ((data1 as bv32) << 8) |
                   (data2 as bv32), 0, 0, 0);
      Print(u, group) == Some(if 0xC0 <= status < 0xE0 then [status, data1] else [status, data1, data2])
  {
    hide ChannelVoiceUmp, MessageKind, Group, MidiStatus, Data1, Data2, TypeFromStatusByte, IsShort;
    VoiceWords(group, status, data1, data2);
    ChannelVoiceFields(group, status, data1, data2);
    ChannelTypes(status);
    ShortRange(status);
    assert [status, data1] + [data2] == [status, data1, data2] && [status, data1] + [] == [status, data1];
  }

  lemma NoMessageStatus(status: bv8)
    requires status in {0xF4, 0xF5, 0xF7, 0xF9, 0xFD}
    ensures !IsSingleByte(TypeFromStatusByte(status)) && MessageSize(TypeFromStatusByte(status)) == 0
  {
  }

  /**
   A status byte that begins no message, F7 outside SysEx among them, gives nothing and puts the parser back to its
   beginning, whatever it was doing: what has been received of a message and the running status are forgotten.
   */
  lemma UndefinedResets(p: Parser, status: bv8, group: bv8)
    requires Ready(p) && status in {0xF4, 0xF5, 0xF7, 0xF9, 0xFD} && (status == 0xF7 ==> !p.active)
    ensures Parse(p, status, group) == (INITIAL, None)
  {
    hide TypeFromStatusByte, IsSingleByte, MessageSize, IsChannelMessage;
    NoMessageStatus(status);
  }

  /** So does a data byte at a message boundary without a running status. */
  lemma StrayDataResets(p: Parser, data: bv8, group: bv8)
    requires Idle(p) && data < 0x80 && !(0x80 <= p.running < 0xF0)
    ensures Parse(p, data, group) == (INITIAL, None)
  {
    hide TypeFromStatusByte, IsSingleByte, MessageSize, IsChannelMessage;
    SizeByStatus(p.running);
    SizeByStatus(data);
  }
}
