/** The whole BLE link: what one transport writes for a stream of messages, another one reads as that stream. */
module MidiBleLink {
  import opened Prelude
  import opened MidiUmp
  import opened MidiCodec
  import opened MidiBle

  lemma {:induction false} WellFormedAppend(open: bool, a: seq<Ump>, b: seq<Ump>)
    requires WellFormed(open, a) && WellFormed(OpenAfter(open, AllBytes(a)), b)
    ensures WellFormed(open, a + b)
    decreases |a|
  {
    hide OwnBytes, Unopened;
    if a == [] {
      assert a + b == b;
    } else {
      assert (a + b)[0] == a[0] && (a + b)[1..] == a[1..] + b;
      OpenAppend(open, OwnBytes(a[0]), AllBytes(a[1..]));
      WellFormedAppend(OpenAfter(open, OwnBytes(a[0])), a[1..], b);
    }
  }

  lemma {:induction false} OpenAppend(open: bool, a: seq<bv8>, b: seq<bv8>)
    ensures OpenAfter(open, a + b) == OpenAfter(OpenAfter(open, a), b)
    decreases |a|
  {
    if a == [] {
      assert a + b == b;
    } else {
      assert (a + b)[0] == a[0] && (a + b)[1..] == a[1..] + b;
      OpenAppend(Track(open, a[0]), a[1..], b);
    }
  }

  lemma {:induction false} OpenThroughData(open: bool, data: seq<bv8>)
    requires SevenBit(data)
    ensures OpenAfter(open, data) == open
    decreases |data|
  {
    if data != [] {
      assert Track(open, data[0]) == open;
      OpenThroughData(open, data[1..]);
    }
  }

  /** Packets printed for their own group print as for a common one. */
  lemma {:induction false} AllBytesIsPrintAll(us: seq<Ump>, group: bv8)
    requires PrintAll(us, group).Some?
    ensures AllBytes(us) == PrintAll(us, group).value
    decreases |us|
  {
    hide Group, MessageKind, IsSysEx7Packet;
    if us != [] {
      AllBytesIsPrintAll(us[1..], group);
    }
  }

  /** A chain of SysEx packets is well-formed: after its first packet a SysEx is open. */
  lemma {:induction false} ChainWellFormed(open: bool, group: bv8, payload: seq<bv8>, first: bool)
    requires group < 16 && SevenBit(payload) && (first || open)
    ensures WellFormed(open, Chain(group, payload, first))
    decreases |payload|
  {
    hide SysExPacket, Print, IsSysEx7Packet, PayloadSize, SysExStatusOf, Group;
    var us := Chain(group, payload, first);
    if |payload| <= 6 {
      SysExPacketFields(group, if first then Complete else End, payload);
      assert us[1..] == [];
    } else {
      var chunk := payload[..6];
      var status := if first then Begin else Middle;
      SysExPacketFields(group, status, chunk);
      PrintSysExPacket(group, status, chunk);
      assert us[0] == SysExPacket(group, status, chunk) && us[1..] == Chain(group, payload[6..], false);
      OpenThroughData(true, chunk);
      var bytes := OwnBytes(us[0]);
      assert bytes == (if first then [SYS_EX_START] else []) + chunk;
      if first {
        assert bytes[1..] == chunk;
      } else {
        assert bytes == chunk;
      }
      ChainWellFormed(true, group, payload[6..], false);
    }
  }

  lemma MessageWellFormed(open: bool, group: bv8, m: Message)
    requires group < 16 && Canonical(m)
    ensures WellFormed(open, Umps(group, m))
  {
    match m {
      case Voice(status, data1, data2) =>
        ChannelVoiceFields(group, status, data1, data2);
      case System(status, data1, data2) =>
        SystemFields(group, status, data1, data2);
      case Exclusive(payload) => ChainWellFormed(open, group, payload, true);
    }
  }

  lemma {:induction false} StreamWellFormed(open: bool, group: bv8, ms: seq<Message>)
    requires group < 16 && AllCanonical(ms)
    ensures WellFormed(open, AllUmps(group, ms))
    decreases |ms|
  {
    hide WellFormed, Canonical, Umps, AllBytes, OpenAfter;
    if ms == [] {
      NoneWellFormed(open);
    } else {
      assert Canonical(ms[0]);
      MessageWellFormed(open, group, ms[0]);
      StreamWellFormed(OpenAfter(open, AllBytes(Umps(group, ms[0]))), group, ms[1..]);
      WellFormedAppend(open, Umps(group, ms[0]), AllUmps(group, ms[1..]));
    }
  }

  lemma NoneWellFormed(open: bool)
    ensures WellFormed(open, [])
  {
  }

  /**
   Link round trip: the packets framed for any canonical stream of one group, read back by a transport in
   any state between packets, produce the same messages on the receiving group.
   */
  lemma LinkRoundTrip(
      p: Parser, open: bool, group: bv8, ms: seq<Message>, batches: seq<seq<Packet>>, capacity: nat)
    requires Ready(p) && group < 16 && AllCanonical(ms)
    requires capacity >= 3 && Batched(batches, AllUmps(group, ms), capacity)
    ensures Stream(Flatten(batches), open).0 == AllWire(ms)
    ensures ParseAll(p, Stream(Flatten(batches), open).0, DEFAULT_RX_GROUP).1 == AllUmps(DEFAULT_RX_GROUP, ms)
  {
    hide AllUmps, AllWire, ParseAll, Batched;
    StreamWellFormed(open, group, ms);
    FramingRoundTrip(batches, AllUmps(group, ms), capacity, open);
    PrintStream(group, ms);
    AllBytesIsPrintAll(AllUmps(group, ms), group);
    StreamRoundTrip(p, DEFAULT_RX_GROUP, ms, seq(|ms|, _ => false));
  }
}
