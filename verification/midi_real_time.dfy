/**
 Real-time bytes in the stream.  The MIDI 1.0 rule lets them stand between any two bytes of another
 message; here is exactly where this parser survives them, and what is left of the message where it does not.
 */
module MidiRealTime {
  import opened Prelude
  import opened MidiUmp
  import opened MidiCodec

  /** The bytes of a message with one more byte after the first `k`. */
  function Interrupted(bytes: seq<bv8>, k: nat, realTime: bv8): seq<bv8>
    requires k <= |bytes|
  {
    bytes[..k] + [realTime] + bytes[k..]
  }

  /** The packets of a payload that have gone out although its end has not come: the full ones but the last. */
  function SentOff(group: bv8, payload: seq<bv8>, first: bool := true): seq<Ump>
    decreases |payload|
  {
    if |payload| <= 6 then []
    else [SysExPacket(group, if first then Begin else Middle, payload[..6])] + SentOff(group, payload[6..], false)
  }

  /** What the parser has emitted of a message when its first `k` bytes are in, but not all of them. */
  function Started(group: bv8, m: Message, k: nat): seq<Ump>
    requires k < |Wire(m)|
  {
    if m.Exclusive? && k > 0 then SentOff(group, m.payload[..k - 1]) else []
  }

  /** The packets of a message that a real-time byte follows after its first `k` bytes. */
  function Heard(group: bv8, m: Message, k: nat, realTime: bv8): seq<Ump>
    requires k <= |Wire(m)|
  {
    var tick := SystemUmp(group, realTime, 0, 0);
    if k == 0 then [tick] + Umps(group, m)
    else if k == |Wire(m)| then Umps(group, m) + [tick]
    else Started(group, m, k) + [tick]
  }

  // ---------------------------------------------------------------- the first bytes of a message

  lemma PartialVoice(p: Parser, m: Message, k: nat, group: bv8)
    requires Ready(p) && m.Voice? && Canonical(m) && 0 < k < |Wire(m)|
    ensures
      var (q, us) := ParseAll(p, Wire(m)[..k], group);
      us == [] && !Idle(q)
  {
    hide Parse, IsShort, ChannelVoiceUmp;
    AfterStatus(p, m.status, group);
    if k == 1 {
      assert Wire(m)[..1] == [m.status];
      ParseOne(p, m.status, group);
    } else {
      assert Wire(m)[..2] == [m.status, m.data1];
      FirstDataByte(Parse(p, m.status, group).0, m.data1, group);
      ParseTwo(p, m.status, m.data1, group);
    }
  }

  lemma PartialSystem(p: Parser, m: Message, k: nat, group: bv8)
    requires Ready(p) && m.System? && Canonical(m) && 0 < k < |Wire(m)|
    ensures
      var (q, us) := ParseAll(p, Wire(m)[..k], group);
      us == [] && !Idle(q)
  {
    hide Parse, SystemUmp;
    AfterCommonStatus(p, m.status, group);
    if k == 1 {
      assert Wire(m)[..1] == [m.status];
      ParseOne(p, m.status, group);
    } else {
      assert Wire(m)[..2] == [m.status, m.data1];
      FirstCommonByte(Parse(p, m.status, group).0, m.data1, group);
      ParseTwo(p, m.status, m.data1, group);
    }
  }

  /** Inside SysEx, with some bytes in the buffer: a packet goes out whenever a seventh byte comes. */
  lemma {:induction false} PartialPayload(p: Parser, bytes: seq<bv8>, group: bv8)
    requires Ready(p) && p.active && SevenBit(bytes) && p.pendingIndex == 0
    ensures
      var (q, us) := ParseAll(p, bytes, group);
      && us == SentOff(group, p.buffer[..p.sysexSize] + bytes, !p.multiPacket)
      && q.active
    decreases |bytes|
  {
    hide SysExPacket, Parse;
    var held := p.buffer[..p.sysexSize];
    if bytes == [] {
      assert held + bytes == held;
    } else {
      var x, rest := bytes[0], bytes[1..];
      var q := Parse(p, x, group).0;
      PayloadByte(p, x, group);
      PartialPayload(q, rest, group);
      assert [x] + rest == bytes;
      if p.sysexSize < 6 {
        assert held + [x] + rest == held + bytes;
      } else {
        assert (held + bytes)[..6] == held && (held + bytes)[6..] == bytes;
      }
    }
  }

  lemma PartialExclusive(p: Parser, m: Message, k: nat, group: bv8)
    requires Ready(p) && m.Exclusive? && Canonical(m) && 0 < k < |Wire(m)|
    ensures
      var (q, us) := ParseAll(p, Wire(m)[..k], group);
      us == Started(group, m, k) && !Idle(q)
  {
    hide ParseSysExByte, ParseIdle;
    var part := m.payload[..k - 1];
    var bytes := Wire(m)[..k];
    assert bytes[0] == SYS_EX_START && bytes[1..] == part;
    var q := Parse(p, SYS_EX_START, group).0;
    PartialPayload(q, part, group);
    assert q.buffer[..0] + part == part;
    assert [] + SentOff(group, part) == SentOff(group, part);
  }

  lemma PartialMessage(p: Parser, m: Message, k: nat, group: bv8)
    requires Ready(p) && Canonical(m) && 0 < k < |Wire(m)|
    ensures
      var (q, us) := ParseAll(p, Wire(m)[..k], group);
      us == Started(group, m, k) && !Idle(q)
  {
    hide ParseAll, Canonical;
    match m {
      case Voice(_, _, _) => PartialVoice(p, m, k, group);
      case System(_, _, _) => PartialSystem(p, m, k, group);
      case Exclusive(_) => PartialExclusive(p, m, k, group);
    }
  }

  // ---------------------------------------------------------------- what comes after the interruption

  /** Data bytes and the end of a SysEx that is no longer open. */
  predicate Leftover(bytes: seq<bv8>) {
    forall i :: 0 <= i < |bytes| ==> bytes[i] < 0x80 || bytes[i] == SYS_EX_END
  }

  lemma LeftoverByte(p: Parser, x: bv8, group: bv8)
    requires Idle(p) && p.running == 0 && (x < 0x80 || x == SYS_EX_END)
    ensures Parse(p, x, group) == (INITIAL, None)
  {
    assert !IsChannelMessage(TypeFromStatusByte(0));
    assert TypeFromStatusByte(x) == Invalid;
  }

  /** With no running status left, they are dropped without a trace. */
  lemma {:induction false} LeftoverIsDropped(p: Parser, bytes: seq<bv8>, group: bv8)
    requires Idle(p) && p.running == 0 && Leftover(bytes)
    ensures
      var (q, us) := ParseAll(p, bytes, group);
      us == [] && Idle(q) && q.running == 0
    decreases |bytes|
  {
    hide Parse;
    if bytes != [] {
      LeftoverByte(p, bytes[0], group);
      LeftoverIsDropped(INITIAL, bytes[1..], group);
    }
  }

  lemma RestIsLeftover(m: Message, k: nat)
    requires Canonical(m) && 0 < k <= |Wire(m)|
    ensures Leftover(Wire(m)[k..])
  {
    if m.Exclusive? {
      forall i | 0 <= i < |Wire(m)[k..]| ensures Wire(m)[k..][i] < 0x80 || Wire(m)[k..][i] == SYS_EX_END {
        if k + i < |Wire(m)| - 1 {
          assert Wire(m)[k + i] == m.payload[k + i - 1];
        }
      }
    }
  }

  /** A real-time byte in the middle of something, then the rest of it. */
  lemma AfterInterruption(p: Parser, realTime: bv8, rest: seq<bv8>, group: bv8)
    requires Ready(p) && !Idle(p) && IsRealTime(realTime) && Leftover(rest)
    ensures
      var (q, us) := ParseAll(p, [realTime] + rest, group);
      us == [SystemUmp(group, realTime, 0, 0)] && Idle(q) && q.running == 0
  {
    hide Parse, ParseAll, SystemUmp;
    AfterSingleByte(p, realTime, group);
    ParseOne(p, realTime, group);
    var q := Parse(p, realTime, group).0;
    LeftoverIsDropped(q, rest, group);
    ParseAppend(p, [realTime], rest, group);
  }

  // ---------------------------------------------------------------- the result

  lemma TickIsMessage(group: bv8, realTime: bv8)
    requires IsRealTime(realTime)
    ensures
      var m := System(realTime, 0, 0);
      Canonical(m) && Wire(m) == [realTime] && Umps(group, m) == [SystemUmp(group, realTime, 0, 0)]
  {
  }

  lemma AtBoundary(p: Parser, m: Message, k: nat, realTime: bv8, group: bv8)
    requires Ready(p) && Canonical(m) && (k == 0 || k == |Wire(m)|) && IsRealTime(realTime)
    ensures
      var (q, us) := ParseAll(p, Interrupted(Wire(m), k, realTime), group);
      us == Heard(group, m, k, realTime) && Idle(q)
  {
    hide ParseAll, Canonical, Wire, Umps, SystemUmp;
    var tick := System(realTime, 0, 0);
    TickIsMessage(group, realTime);
    var w := Wire(m);
    assert w[..0] == [] && w[0..] == w && w[..|w|] == w && w[|w|..] == [];
    if k == 0 {
      assert Interrupted(w, 0, realTime) == [realTime] + w;
      ParseSent(p, None, tick, false, group);
      ParseSent(ParseAll(p, [realTime], group).0, None, m, false, group);
      ParseAppend(p, [realTime], w, group);
    } else {
      assert Interrupted(w, k, realTime) == w + [realTime];
      ParseSent(p, None, m, false, group);
      ParseSent(ParseAll(p, w, group).0, None, tick, false, group);
      ParseAppend(p, w, [realTime], group);
    }
  }

  lemma Inside(p: Parser, m: Message, k: nat, realTime: bv8, group: bv8)
    requires Ready(p) && Canonical(m) && 0 < k < |Wire(m)| && IsRealTime(realTime)
    ensures
      var (q, us) := ParseAll(p, Interrupted(Wire(m), k, realTime), group);
      us == Heard(group, m, k, realTime) && Idle(q) && q.running == 0
  {
    hide ParseAll, Canonical, Wire, Umps, SystemUmp, Started;
    var first, rest := Wire(m)[..k], Wire(m)[k..];
    PartialMessage(p, m, k, group);
    RestIsLeftover(m, k);
    AfterInterruption(ParseAll(p, first, group).0, realTime, rest, group);
    ParseAppend(p, first, [realTime] + rest, group);
    assert first + [realTime] + rest == first + ([realTime] + rest);
  }

  lemma {:induction false} ChainIsLonger(group: bv8, payload: seq<bv8>, n: nat, first: bool)
    requires n <= |payload|
    ensures |SentOff(group, payload[..n], first)| < |Chain(group, payload, first)|
    decreases |payload|
  {
    hide SysExPacket;
    if n > 6 {
      assert payload[..n][6..] == payload[6..][..n - 6];
      ChainIsLonger(group, payload[6..], n - 6, false);
    }
  }

  lemma FewerPackets(group: bv8, m: Message, k: nat)
    requires 0 < k < |Wire(m)|
    ensures |Started(group, m, k)| < |Umps(group, m)|
  {
    hide Chain, SentOff, ChannelVoiceUmp, SystemUmp;
    if m.Exclusive? {
      ChainIsLonger(group, m.payload, k - 1, true);
    }
  }

  /**
   A real-time byte after the first `k` bytes of any message: from any parser state, the parser gives the
   message with the real-time packet before or after it exactly when the byte stands before or after all of
   the message.  Anywhere else the message is lost: what comes out is the SysEx packets that had gone out
   already, then the real-time packet, and the rest of the message is dropped.
   */
  lemma RealTimeInsideMessageLosesIt(p: Parser, m: Message, k: nat, realTime: bv8, group: bv8)
    requires Ready(p) && Canonical(m) && k <= |Wire(m)| && IsRealTime(realTime)
    ensures
      var tick := SystemUmp(group, realTime, 0, 0);
      var (q, us) := ParseAll(p, Interrupted(Wire(m), k, realTime), group);
      && (us == [tick] + Umps(group, m) || us == Umps(group, m) + [tick] <==> k == 0 || k == |Wire(m)|)
      && us == Heard(group, m, k, realTime)
      && Idle(q) && (0 < k < |Wire(m)| ==> q.running == 0)
  {
    hide ParseAll, Interrupted, Wire, Umps, SystemUmp, Canonical, Started;
    if k == 0 || k == |Wire(m)| {
      AtBoundary(p, m, k, realTime, group);
    } else {
      Inside(p, m, k, realTime, group);
      FewerPackets(group, m, k);
    }
  }

  /** Two data bytes under running status with a real-time byte between them. */
  lemma InsideRunningStatus(p: Parser, data1: bv8, realTime: bv8, data2: bv8, group: bv8)
    requires Idle(p) && 0x80 <= p.running < 0xF0 && !IsShort(p.running)
    requires data1 < 0x80 && data2 < 0x80 && IsRealTime(realTime)
    ensures
      var (q, us) := ParseAll(p, [data1] + ([realTime] + [data2]), group);
      us == [SystemUmp(group, realTime, 0, 0)] && Idle(q) && q.running == 0
  {
    hide Parse, ParseAll, SystemUmp, ChannelVoiceUmp, IsShort, IsRealTime;
    FirstRunningByte(p, data1, group);
    ParseOne(p, data1, group);
    AfterInterruption(Parse(p, data1, group).0, realTime, [data2], group);
    ParseAppend(p, [data1], [realTime] + [data2], group);
  }

  /** The data bytes of a channel message. */
  lemma VoiceData(m: Message)
    requires m.Voice? && Canonical(m)
    ensures 0x80 <= m.status < 0xF0 && m.data1 < 0x80 && m.data2 < 0x80
    ensures 2 <= |Wire(m)| <= 3 && (|Wire(m)| == 2 <==> IsShort(m.status))
    ensures Wire(m)[1..] == if IsShort(m.status) then [m.data1] else [m.data1, m.data2]
  {
    hide IsShort;
  }

  /** A real-time byte before or after a message under running status leaves both intact. */
  lemma BesideRunningStatus(p: Parser, m: Message, realTime: bv8, group: bv8)
    requires Idle(p) && m.Voice? && Canonical(m) && p.running == m.status && IsRealTime(realTime)
    ensures
      var tick := SystemUmp(group, realTime, 0, 0);
      var w := Wire(m)[1..];
      var (q, us) := ParseAll(p, [realTime] + w, group);
      var (r, vs) := ParseAll(p, w + [realTime], group);
      && us == [tick] + Umps(group, m) && Idle(q) && q.running == m.status
      && vs == Umps(group, m) + [tick] && Idle(r) && r.running == m.status
  {
    hide Parse, ParseAll, SystemUmp, Canonical, Wire, Umps;
    VoiceData(m);
    var w := Wire(m)[1..];
    var tick := System(realTime, 0, 0);
    TickIsMessage(group, realTime);
    ParseSystem(p, tick, group);
    ParseRunningVoice(ParseAll(p, [realTime], group).0, m, group);
    ParseAppend(p, [realTime], w, group);
    ParseRunningVoice(p, m, group);
    ParseSystem(ParseAll(p, w, group).0, tick, group);
    ParseAppend(p, w, [realTime], group);
  }

  /** The same for a channel message sent under running status, without its status byte. */
  lemma RealTimeUnderRunningStatus(p: Parser, m: Message, k: nat, realTime: bv8, group: bv8)
    requires Idle(p) && m.Voice? && Canonical(m) && p.running == m.status
    requires k < |Wire(m)| && IsRealTime(realTime)
    ensures
      var tick := SystemUmp(group, realTime, 0, 0);
      var (q, us) := ParseAll(p, Interrupted(Wire(m)[1..], k, realTime), group);
      && us == (if k == 0 then [tick] + Umps(group, m)
                else if k == |Wire(m)| - 1 then Umps(group, m) + [tick] else [tick])
      && Idle(q) && q.running == (if 0 < k < |Wire(m)| - 1 then 0 else m.status)
  {
    hide ParseAll, SystemUmp, IsShort, IsRealTime, Umps, Canonical, Wire;
    VoiceData(m);
    var w := Wire(m)[1..];
    if k == 0 {
      assert Interrupted(w, 0, realTime) == [realTime] + w;
      BesideRunningStatus(p, m, realTime, group);
    } else if k == |w| {
      assert Interrupted(w, k, realTime) == w + [realTime];
      BesideRunningStatus(p, m, realTime, group);
    } else {
      assert Interrupted(w, 1, realTime) == [m.data1] + ([realTime] + [m.data2]);
      InsideRunningStatus(p, m.data1, realTime, m.data2, group);
    }
  }

  /** In a stream with all its status bytes, an interruption costs the interrupted message and no other. */
  lemma InterruptedStream(p: Parser, before: seq<Message>, m: Message, after: seq<Message>, k: nat, realTime: bv8,
                          group: bv8)
    requires Ready(p) && AllCanonical(before) && Canonical(m) && AllCanonical(after)
    requires k <= |Wire(m)| && IsRealTime(realTime)
    ensures
      ParseAll(p, AllWire(before) + (Interrupted(Wire(m), k, realTime) + AllWire(after)), group).1 ==
      AllUmps(group, before) + (Heard(group, m, k, realTime) + AllUmps(group, after))
  {
    hide ParseAll, Interrupted, Heard, AllWire, AllUmps, AllCanonical, Canonical;
    var bytes := Interrupted(Wire(m), k, realTime);
    ParseWhole(p, before, group);
    var q := ParseAll(p, AllWire(before), group).0;
    RealTimeInsideMessageLosesIt(q, m, k, realTime, group);
    var r := ParseAll(q, bytes, group).0;
    ParseWhole(r, after, group);
    ParseAppend(q, bytes, AllWire(after), group);
    ParseAppend(p, AllWire(before), bytes + AllWire(after), group);
  }

  lemma ParseWhole(p: Parser, ms: seq<Message>, group: bv8)
    requires Ready(p) && AllCanonical(ms)
    ensures ParseAll(p, AllWire(ms), group).1 == AllUmps(group, ms)
  {
    var none := seq(|ms|, _ => false);
    NothingDropped(None, ms, none);
    ParseStream(p, None, ms, none, group);
  }
}
