/**
 BLE-MIDI framing: packets of a timestamp header and MIDI 1 bytes, cut at the packet capacity by the
 sender and stripped of their timestamps by the receiver.
 */
module MidiBle {
  import opened Prelude
  import opened MidiUmp
  import opened MidiCodec
  import opened MidiStream

  /** A hardware packet: a buffer of the full capacity, of which the first `size` bytes are meant. */
  datatype Packet = Packet(data: seq<bv8>, size: nat)

  const BLE_TIMESTAMP_MASK: bv16 := 0x1FFF
  const DEFAULT_RX_GROUP: bv8 := 0

  function HeaderByte(time: bv16): bv8 {
    (((time & BLE_TIMESTAMP_MASK) >> 7) as bv8) | MIDI_STATUS_MIN
  }

  function TimestampByte(time: bv16): bv8 {
    ((time & BLE_TIMESTAMP_MASK & 0x7F) as bv8) | MIDI_STATUS_MIN
  }

  /** Both header bytes have their top bit set: six high bits of the 13-bit time, then its seven low bits. */
  lemma HeaderCarriesTime(time: bv16)
    ensures HeaderByte(time) == 0x80 + ((time % 0x2000) / 0x80) as bv8 && 0x80 <= HeaderByte(time) < 0xC0
    ensures TimestampByte(time) == 0x80 + (time % 0x80) as bv8 && 0x80 <= TimestampByte(time)
    ensures
      (((HeaderByte(time) & 0x3F) as bv16) << 7) | ((TimestampByte(time) & 0x7F) as bv16) ==
      time & BLE_TIMESTAMP_MASK
  {
  }

  /** The packet begins with the header of this time. */
  predicate Headed(p: Packet, time: bv16) {
    && |p.data| >= 2
    && p.data[0] == 0x80 + ((time % 0x2000) / 0x80) as bv8
    && p.data[1] == 0x80 + (time % 0x80) as bv8
  }

  lemma HeadedHigh(p: Packet, time: bv16)
    requires Headed(p, time)
    ensures p.data[0] >= 0x80 && p.data[1] >= 0x80
  {
    HeaderCarriesTime(time);
  }

  // ---------------------------------------------------------------- the receiver's rule

  /** Whether a SysEx is open after `data`. */
  function Track(open: bool, data: bv8): bool {
    if data == SYS_EX_START then true else if data == SYS_EX_END then false else open
  }

  function OpenAfter(open: bool, bytes: seq<bv8>): bool
    decreases |bytes|
  {
    if bytes == [] then open else OpenAfter(Track(open, bytes[0]), bytes[1..])
  }

  /**
   What is still to be returned of a packet from position `index` on, and whether a SysEx is open then.
   With `search` set a timestamp is due at `index`.
   */
  function Rest(p: Packet, index: nat, search: bool, open: bool): (seq<bv8>, bool)
    decreases p.size - index
  {
    if p.size > |p.data| || index >= p.size then ([], open)
    else
      var data := p.data[index];
      if search then
        if data < MIDI_STATUS_MIN then
          if index == 1 then
            var (more, after) := Rest(p, index + 1, false, open);
            ([data] + more, after)
          else ([], open)
        else Rest(p, index + 1, false, open)
      else
        var now := Track(open, data);
        var due := !now && index + 1 < p.size && p.data[index + 1] >= MIDI_STATUS_MIN;
        var (more, after) := Rest(p, index + 1, due, now);
        ([data] + more, after)
  }

  /** What a queue of packets will be returned as. */
  function Stream(queue: seq<Packet>, open: bool): (seq<bv8>, bool) {
    if queue == [] then ([], open)
    else
      var (first, now) := Rest(queue[0], 1, true, open);
      var (more, after) := Stream(queue[1..], now);
      (first + more, after)
  }

  lemma StreamNext(queue: seq<Packet>, open: bool)
    requires queue != []
    ensures
      var (first, now) := Rest(queue[0], 1, true, open);
      Stream(queue, open).0 == first + Stream(queue[1..], now).0
  {
  }

  // ---------------------------------------------------------------- the sender's cuts

  /** Bytes cut to what fits after the two header bytes. */
  function Cut(bytes: seq<bv8>, capacity: nat): seq<seq<bv8>>
    requires capacity >= 3
    decreases |bytes|
  {
    if bytes == [] then []
    else if |bytes| <= capacity - 2 then [bytes]
    else [bytes[..capacity - 2]] + Cut(bytes[capacity - 2..], capacity)
  }

  predicate Carries(p: Packet, chunk: seq<bv8>, capacity: nat) {
    && |p.data| == capacity && p.size == |chunk| + 2 && p.size <= capacity
    && p.data[0] >= 0x80 && p.data[1] >= 0x80 && p.data[2..p.size] == chunk
  }

  predicate Framed(packets: seq<Packet>, chunks: seq<seq<bv8>>, capacity: nat) {
    |packets| == |chunks| && forall i :: 0 <= i < |packets| ==> Carries(packets[i], chunks[i], capacity)
  }

  // ---------------------------------------------------------------- when a packet is read back intact

  /** No status byte follows, within `bytes`, a byte after which no SysEx is open. */
  predicate Clean(open: bool, bytes: seq<bv8>)
    decreases |bytes|
  {
    |bytes| <= 1 ||
    ((Track(open, bytes[0]) || bytes[1] < MIDI_STATUS_MIN) && Clean(Track(open, bytes[0]), bytes[1..]))
  }

  /** Reading a clean packet back from its byte `k` on. */
  lemma {:induction false} RestOfClean(p: Packet, chunk: seq<bv8>, capacity: nat, k: nat, open: bool)
    requires Carries(p, chunk, capacity) && k <= |chunk| && Clean(open, chunk[k..])
    ensures Rest(p, 2 + k, false, open) == (chunk[k..], OpenAfter(open, chunk[k..]))
    decreases |chunk| - k
  {
    if k < |chunk| {
      assert p.data[2 + k] == p.data[2..p.size][k] == chunk[k];
      assert chunk[k..] == [chunk[k]] + chunk[k + 1..];
      assert chunk[k..][1..] == chunk[k + 1..];
      if k + 1 < |chunk| {
        assert p.data[3 + k] == p.data[2..p.size][k + 1] == chunk[k + 1] == chunk[k..][1];
      }
      RestOfClean(p, chunk, capacity, k + 1, Track(open, chunk[k]));
    }
  }

  /** Reading never returns more than was carried, and returns less when a timestamp is looked for. */
  lemma {:induction false} RestShrinks(p: Packet, chunk: seq<bv8>, capacity: nat, k: nat, search: bool, open: bool)
    requires Carries(p, chunk, capacity) && k <= |chunk|
    requires search ==> k < |chunk|
    ensures |Rest(p, 2 + k, search, open).0| <= |chunk| - k - (if search then 1 else 0)
    ensures !search && !Clean(open, chunk[k..]) ==> |Rest(p, 2 + k, false, open).0| < |chunk| - k
    decreases |chunk| - k
  {
    if k < |chunk| {
      assert p.data[2 + k] == p.data[2..p.size][k] == chunk[k];
      assert chunk[k..][1..] == chunk[k + 1..];
      if search {
        RestShrinks(p, chunk, capacity, k + 1, false, open);
      } else {
        var now := Track(open, chunk[k]);
        if k + 1 < |chunk| {
          assert p.data[3 + k] == p.data[2..p.size][k + 1] == chunk[k + 1] == chunk[k..][1];
          RestShrinks(p, chunk, capacity, k + 1, !now && chunk[k + 1] >= 0x80, now);
        } else {
          RestShrinks(p, chunk, capacity, k + 1, false, now);
        }
      }
    }
  }

  /** A packet is read back intact exactly when what it carries is clean. */
  lemma PacketIntactIffClean(p: Packet, chunk: seq<bv8>, capacity: nat, open: bool)
    requires Carries(p, chunk, capacity)
    ensures Rest(p, 1, true, open).0 == chunk <==> Clean(open, chunk)
    ensures Clean(open, chunk) ==> Rest(p, 1, true, open).1 == OpenAfter(open, chunk)
  {
    assert chunk[0..] == chunk;
    assert Rest(p, 1, true, open) == Rest(p, 2, false, open);
    if Clean(open, chunk) {
      RestOfClean(p, chunk, capacity, 0, open);
    } else {
      RestShrinks(p, chunk, capacity, 0, false, open);
    }
  }

  lemma {:induction false} CleanParts(open: bool, a: seq<bv8>, b: seq<bv8>)
    requires Clean(open, a + b)
    ensures Clean(open, a) && Clean(OpenAfter(open, a), b)
    ensures OpenAfter(open, a + b) == OpenAfter(OpenAfter(open, a), b)
    decreases |a|
  {
    if a == [] {
      assert a + b == b;
    } else {
      assert (a + b)[0] == a[0] && (a + b)[1..] == a[1..] + b;
      if |a + b| > 1 {
        CleanParts(Track(open, a[0]), a[1..], b);
      } else {
        assert b == [];
      }
      if |a| > 1 {
        assert (a + b)[1] == a[1];
      }
    }
  }

  /** Clean bytes come back whole however they were cut into packets. */
  lemma {:induction false} CutReadBack(packets: seq<Packet>, bytes: seq<bv8>, capacity: nat, open: bool)
    requires capacity >= 3 && Framed(packets, Cut(bytes, capacity), capacity) && Clean(open, bytes)
    ensures Stream(packets, open) == (bytes, OpenAfter(open, bytes))
    decreases |bytes|
  {
    hide Rest, Clean, Carries, OpenAfter;
    var chunks := Cut(bytes, capacity);
    if bytes == [] {
      OpenAfterNothing(open);
    } else if |bytes| <= capacity - 2 {
      assert Carries(packets[0], bytes, capacity);
      PacketIntactIffClean(packets[0], bytes, capacity, open);
      assert packets[1..] == [];
      assert bytes + [] == bytes;
    } else {
      var head, tail := bytes[..capacity - 2], bytes[capacity - 2..];
      assert bytes == head + tail;
      assert chunks == [head] + Cut(tail, capacity);
      assert Carries(packets[0], head, capacity);
      CleanParts(open, head, tail);
      PacketIntactIffClean(packets[0], head, capacity, open);
      assert chunks[1..] == Cut(tail, capacity);
      forall i | 0 <= i < |packets[1..]| ensures Carries(packets[1..][i], chunks[1..][i], capacity) {
        assert Carries(packets[i + 1], chunks[i + 1], capacity);
      }
      CutReadBack(packets[1..], tail, capacity, OpenAfter(open, head));
    }
  }

  lemma OpenAfterNothing(open: bool)
    ensures OpenAfter(open, []) == open
  {
  }

  lemma {:induction false} StreamAppend(a: seq<Packet>, b: seq<Packet>, open: bool)
    ensures
      var (first, now) := Stream(a, open);
      var (second, after) := Stream(b, now);
      Stream(a + b, open) == (first + second, after)
    decreases |a|
  {
    hide Rest;
    if a == [] {
      assert a + b == b;
      assert [] + Stream(b, open).0 == Stream(b, open).0;
    } else {
      var (x, now) := Rest(a[0], 1, true, open);
      assert (a + b)[0] == a[0] && (a + b)[1..] == a[1..] + b;
      StreamAppend(a[1..], b, now);
      var (y, mid) := Stream(a[1..], now);
      assert x + (y + Stream(b, mid).0) == (x + y) + Stream(b, mid).0;
    }
  }

  // ---------------------------------------------------------------- packets of other senders

  /** A message behind a timestamp of its own. */
  datatype Stamped = Stamped(stamp: bv8, bytes: seq<bv8>)

  /** Messages one after the other, each behind its timestamp. */
  function StampedBytes(ms: seq<Stamped>): seq<bv8> {
    if ms == [] then [] else [ms[0].stamp] + ms[0].bytes + StampedBytes(ms[1..])
  }

  /** The same without the timestamps. */
  function PlainBytes(ms: seq<Stamped>): seq<bv8> {
    if ms == [] then [] else ms[0].bytes + PlainBytes(ms[1..])
  }

  /** A message of at least one byte that leaves no SysEx open. */
  predicate WholeMessage(m: Stamped) {
    m.stamp >= 0x80 && m.bytes != [] && Clean(false, m.bytes) && !OpenAfter(false, m.bytes)
  }

  /** The packet holds these bytes from position `at` on. */
  predicate HoldsAt(p: Packet, at: nat, bytes: seq<bv8>) {
    p.size <= |p.data| && at + |bytes| <= p.size && p.data[at..at + |bytes|] == bytes
  }

  lemma HoldsRest(p: Packet, at: nat, bytes: seq<bv8>)
    requires HoldsAt(p, at, bytes) && bytes != []
    ensures at < p.size <= |p.data| && p.data[at] == bytes[0] && HoldsAt(p, at + 1, bytes[1..])
    ensures |bytes| > 1 ==> at + 1 < p.size && p.data[at + 1] == bytes[1]
  {
    assert p.data[at] == p.data[at..at + |bytes|][0] == bytes[0];
    assert p.data[at + 1..at + |bytes|] == p.data[at..at + |bytes|][1..];
    if |bytes| > 1 {
      assert p.data[at + 1] == p.data[at..at + |bytes|][1];
    }
  }

  /** What is still to be read behind a message that ends at `end`. */
  function Behind(p: Packet, end: nat, open: bool): (seq<bv8>, bool) {
    Rest(p, end, !open && end < p.size <= |p.data| && p.data[end] >= 0x80, open)
  }

  lemma OneByteRead(p: Packet, at: nat, open: bool)
    requires at < p.size <= |p.data|
    ensures
      var now := Track(open, p.data[at]);
      Rest(p, at, false, open) == ([p.data[at]] + Behind(p, at + 1, now).0, Behind(p, at + 1, now).1)
  {
  }

  lemma CleanInside(open: bool, bytes: seq<bv8>)
    requires |bytes| > 1 && Clean(open, bytes)
    ensures Track(open, bytes[0]) || bytes[1] < 0x80
    ensures Clean(Track(open, bytes[0]), bytes[1..])
    ensures OpenAfter(open, bytes) == OpenAfter(Track(open, bytes[0]), bytes[1..])
  {
  }

  lemma OpenAfterOne(open: bool, bytes: seq<bv8>)
    requires |bytes| == 1
    ensures OpenAfter(open, bytes) == Track(open, bytes[0])
  {
    assert bytes[1..] == [];
  }

  /** Reading a message inside a packet: all of it, and then a timestamp is due if a status byte follows. */
  lemma {:induction false} MessageRead(p: Packet, at: nat, bytes: seq<bv8>, open: bool)
    requires HoldsAt(p, at, bytes) && bytes != [] && Clean(open, bytes)
    ensures
      var (more, after) := Behind(p, at + |bytes|, OpenAfter(open, bytes));
      Rest(p, at, false, open) == (bytes + more, after)
    decreases |bytes|
  {
    hide Rest, Clean, OpenAfter, Track, HoldsAt;
    HoldsRest(p, at, bytes);
    OneByteRead(p, at, open);
    var more := Behind(p, at + |bytes|, OpenAfter(open, bytes)).0;
    if |bytes| == 1 {
      OpenAfterOne(open, bytes);
      assert bytes == [bytes[0]];
    } else {
      CleanInside(open, bytes);
      MessageRead(p, at + 1, bytes[1..], Track(open, bytes[0]));
      assert [bytes[0]] + (bytes[1..] + more) == bytes + more;
    }
  }

  lemma HoldsParts(p: Packet, at: nat, a: seq<bv8>, b: seq<bv8>)
    requires HoldsAt(p, at, a + b)
    ensures HoldsAt(p, at, a) && HoldsAt(p, at + |a|, b)
  {
    assert p.data[at..at + |a|] == p.data[at..at + |a + b|][..|a|] == a;
    assert p.data[at + |a|..at + |a| + |b|] == p.data[at..at + |a + b|][|a|..] == b;
  }

  /** Behind a message a timestamp is looked for, if there is one more message. */
  lemma StampDue(p: Packet, end: nat, rest: seq<Stamped>)
    requires HoldsAt(p, end, StampedBytes(rest)) && end + |StampedBytes(rest)| == p.size
    requires rest != [] ==> rest[0].stamp >= 0x80
    ensures Behind(p, end, false) == Rest(p, end, true, false)
  {
    hide Rest;
    if rest != [] {
      HoldsRest(p, end, StampedBytes(rest));
    } else {
      EndOfPacket(p, end);
    }
  }

  lemma EndOfPacket(p: Packet, end: nat)
    requires end == p.size
    ensures Rest(p, end, true, false) == Rest(p, end, false, false) == ([], false)
  {
  }

  lemma StampSkipped(p: Packet, at: nat)
    requires at < p.size <= |p.data| && p.data[at] >= 0x80
    ensures Rest(p, at, true, false) == Rest(p, at + 1, false, false)
  {
  }

  /** Timestamps between messages are stripped, however the sender packed the messages. */
  lemma {:induction false} StampsStripped(p: Packet, at: nat, ms: seq<Stamped>)
    requires HoldsAt(p, at, StampedBytes(ms)) && at + |StampedBytes(ms)| == p.size
    requires forall i :: 0 <= i < |ms| ==> WholeMessage(ms[i])
    ensures Rest(p, at, true, false) == (PlainBytes(ms), false)
    decreases |ms|
  {
    hide Clean, OpenAfter, Rest, HoldsAt, Behind;
    if ms == [] {
      EndOfPacket(p, at);
    } else {
      var m, rest := ms[0], ms[1..];
      assert WholeMessage(m);
      assert StampedBytes(ms) == [m.stamp] + (m.bytes + StampedBytes(rest));
      HoldsParts(p, at, [m.stamp], m.bytes + StampedBytes(rest));
      HoldsRest(p, at, [m.stamp]);
      HoldsParts(p, at + 1, m.bytes, StampedBytes(rest));
      StampSkipped(p, at);
      MessageRead(p, at + 1, m.bytes, false);
      assert rest != [] ==> WholeMessage(rest[0]);
      StampDue(p, at + 1 + |m.bytes|, rest);
      StampsStripped(p, at + 1 + |m.bytes|, rest);
    }
  }

  /** A packet that goes on with a SysEx has no timestamp behind its header, and is read from there. */
  lemma Continuation(p: Packet, bytes: seq<bv8>)
    requires HoldsAt(p, 1, bytes) && bytes != [] && 1 + |bytes| == p.size && bytes[0] < 0x80 && Clean(true, bytes)
    ensures Rest(p, 1, true, true) == (bytes, OpenAfter(true, bytes))
  {
    hide Clean, OpenAfter;
    assert p.data[1] == p.data[1..1 + |bytes|][0] == bytes[0];
    MessageRead(p, 1, bytes, true);
    FirstData(p);
    assert bytes + [] == bytes;
  }

  /** A data byte behind the header is read as one. */
  lemma FirstData(p: Packet)
    requires 1 < p.size <= |p.data| && p.data[1] < 0x80
    ensures Rest(p, 1, true, true) == Rest(p, 1, false, true)
  {
    assert Track(true, p.data[1]);
  }

  // ---------------------------------------------------------------- packets of a UMP stream

  /** The bytes the transport makes of a packet; a refused packet puts nothing on the air. */
  function OwnBytes(u: Ump): seq<bv8> {
    var printed := Print(u, Group(u));
    if printed.Some? then printed.value else []
  }

  function AllBytes(us: seq<Ump>): seq<bv8> {
    if us == [] then [] else OwnBytes(us[0]) + AllBytes(us[1..])
  }

  /** An End packet with payload while no SysEx is open. */
  predicate Unopened(open: bool, u: Ump) {
    !open && IsSysEx7Packet(u) && SysExStatusOf(u) == Some(End) && SizeOf(PayloadSize(u)) > 0
  }

  predicate WellFormed(open: bool, us: seq<Ump>)
    decreases |us|
  {
    us == [] || (!Unopened(open, us[0]) && WellFormed(OpenAfter(open, OwnBytes(us[0])), us[1..]))
  }

  lemma DataBytesLow(u: Ump, index: nat)
    requires index < 6
    ensures Data1(u) < 0x80 && Data2(u) < 0x80 && ReadLane(u, index) < 0x80
  {
  }

  lemma {:induction false} CleanData(open: bool, data: seq<bv8>, end: bool)
    requires SevenBit(data) && (end && data != [] ==> open)
    ensures Clean(open, data + if end then [SYS_EX_END] else [])
    decreases |data|
  {
    var bytes := data + if end then [SYS_EX_END] else [];
    if |data| > 0 {
      assert bytes[0] == data[0] && bytes[1..] == data[1..] + if end then [SYS_EX_END] else [];
      assert Track(open, data[0]) == open;
      CleanData(open, data[1..], end);
      if |data| > 1 {
        assert bytes[1] == data[1];
      }
    }
  }

  lemma CleanAfterFirst(open: bool, first: bv8, rest: seq<bv8>)
    requires Clean(Track(open, first), rest) && (Track(open, first) || rest == [] || rest[0] < 0x80)
    ensures Clean(open, [first] + rest)
  {
    assert ([first] + rest)[1..] == rest;
  }

  lemma CleanShort(open: bool, status: bv8, data1: bv8, data2: bv8)
    requires data1 < 0x80 && data2 < 0x80
    ensures Clean(open, [status]) && Clean(open, [status, data1]) && Clean(open, [status, data1, data2])
  {
    assert [status, data1][1..] == [data1];
    assert [status, data1, data2][1..] == [data1, data2];
    assert [data1, data2][1..] == [data2];
  }

  lemma CleanNothing(open: bool)
    ensures Clean(open, [])
  {
  }

  /** A packet prints to clean bytes unless it is an unopened end. */
  lemma PrintsClean(open: bool, u: Ump)
    requires !Unopened(open, u)
    ensures Clean(open, OwnBytes(u))
  {
    hide Clean, Group, MessageKind, MidiStatus, Data1, Data2, ReadLane, PayloadSize, SysExStatusOf, TypeFromStatusByte,
         Track;
    DataBytesLow(u, 0);
    CleanShort(open, MidiStatus(u), Data1(u), Data2(u));
    Joined(MidiStatus(u), Data1(u), Data2(u));
    CleanNothing(open);
    assert OwnBytes(u) == [] ==> Clean(open, OwnBytes(u));
    if MessageKind(u) == MT_DATA_64 && IsSysEx7Packet(u) {
      PrintsSysExClean(open, u);
    }
  }

  lemma PrintsSysExClean(open: bool, u: Ump)
    requires IsSysEx7Packet(u) && !Unopened(open, u)
    ensures Clean(open, OwnBytes(u))
  {
    hide Clean, Group, ReadLane, PayloadSize, SysExStatusOf;
    var status := SysExStatus7(u);
    var lanes := Lanes(u, SizeOf(PayloadSize(u)));
    forall i | 0 <= i < |lanes| ensures lanes[i] < 0x80 {
      DataBytesLow(u, i);
    }
    var tail := lanes + (if EndsMessage(status) then [SYS_EX_END] else []);
    SysExBytes(u);
    if StartsMessage(status) {
      CleanData(true, lanes, EndsMessage(status));
      CleanAfterFirst(open, SYS_EX_START, tail);
    } else {
      assert [] + tail == tail;
      CleanData(open, lanes, EndsMessage(status));
    }
  }

  function SysExStatus7(u: Ump): SysExStatus
    requires IsSysEx7Packet(u)
  {
    SysExStatusOf(u).value
  }

  lemma SysExBytes(u: Ump)
    requires IsSysEx7Packet(u)
    ensures
      var status := SysExStatus7(u);
      OwnBytes(u) == (if StartsMessage(status) then [SYS_EX_START] else []) +
                     (Lanes(u, SizeOf(PayloadSize(u))) + (if EndsMessage(status) then [SYS_EX_END] else []))
    ensures SysExStatusOf(u) == Some(SysExStatus7(u))
  {
    hide Group, ReadLane, Lanes, PayloadSize, SysExStatusOf;
  }

  lemma {:induction false} UncleanEnd(data: seq<bv8>)
    requires SevenBit(data) && data != []
    ensures !Clean(false, data + [SYS_EX_END])
    decreases |data|
  {
    var bytes := data + [SYS_EX_END];
    assert bytes[0] == data[0] && bytes[1..] == data[1..] + [SYS_EX_END];
    if |data| == 1 {
      assert bytes[1] == SYS_EX_END;
    } else {
      UncleanEnd(data[1..]);
    }
  }

  lemma {:induction false} DataOpensNothing(data: seq<bv8>)
    requires SevenBit(data)
    ensures OpenAfter(false, data) == false
    decreases |data|
  {
    if data != [] {
      DataOpensNothing(data[1..]);
    }
  }

  lemma SameRemainder(n: nat, c: nat)
    requires 1 <= c <= n
    ensures (n - c) % c == n % c
  {
    assert n == c + (n - c);
    assert (n - c) / c * c + (n - c) % c == n - c;
    assert n == ((n - c) / c + 1) * c + (n - c) % c;
    Remainder(n, c, (n - c) / c + 1, (n - c) % c);
  }

  lemma Remainder(n: nat, c: nat, q: nat, r: nat)
    requires 1 <= c && n == q * c + r && r < c
    ensures n % c == r
  {
    assert n == n / c * c + n % c;
    if n / c < q {
      ProductMonotone(n / c + 1, q, c);
    } else if n / c > q {
      ProductMonotone(q + 1, n / c, c);
    }
  }

  /** Data and an end byte without a start: intact exactly when the end byte travels alone. */
  lemma {:induction false} EndReadBack(packets: seq<Packet>, data: seq<bv8>, capacity: nat)
    requires capacity >= 3 && SevenBit(data) && Framed(packets, Cut(data + [SYS_EX_END], capacity), capacity)
    ensures Stream(packets, false).0 == data + [SYS_EX_END] <==> |data| % (capacity - 2) == 0
    decreases |data|
  {
    hide Rest, Clean, Carries, OpenAfter;
    var bytes := data + [SYS_EX_END];
    if |data| < capacity - 2 {
      LastPacketIntact(packets, data, capacity);
    } else {
      var head, tail := data[..capacity - 2], data[capacity - 2..];
      assert bytes[..capacity - 2] == head && bytes[capacity - 2..] == tail + [SYS_EX_END];
      FirstPacketIntact(packets, bytes, head, tail + [SYS_EX_END], capacity);
      EndReadBack(packets[1..], tail, capacity);
      SameRemainder(|data|, capacity - 2);
      SamePrefix(head, Stream(packets[1..], false).0, tail + [SYS_EX_END]);
      assert bytes == head + (tail + [SYS_EX_END]);
    }
  }

  lemma SamePrefix(head: seq<bv8>, a: seq<bv8>, b: seq<bv8>)
    ensures head + a == head + b <==> a == b
  {
    assert (head + a)[|head|..] == a && (head + b)[|head|..] == b;
  }

  lemma LastPacketIntact(packets: seq<Packet>, data: seq<bv8>, capacity: nat)
    requires SevenBit(data) && |data| < capacity - 2
    requires Framed(packets, Cut(data + [SYS_EX_END], capacity), capacity)
    ensures Stream(packets, false).0 == data + [SYS_EX_END] <==> |data| % (capacity - 2) == 0
  {
    hide Rest, Carries;
    var bytes := data + [SYS_EX_END];
    assert Carries(packets[0], bytes, capacity);
    PacketIntactIffClean(packets[0], bytes, capacity, false);
    assert packets[1..] == [];
    assert Stream(packets, false).0 == Rest(packets[0], 1, true, false).0 + [];
    Remainder(|data|, capacity - 2, 0, |data|);
    if data != [] {
      UncleanEnd(data);
    }
  }

  lemma FirstPacketIntact(packets: seq<Packet>, bytes: seq<bv8>, head: seq<bv8>, tail: seq<bv8>, capacity: nat)
    requires capacity >= 3 && |bytes| > capacity - 2 && head == bytes[..capacity - 2] && tail == bytes[capacity - 2..]
    requires SevenBit(head) && Framed(packets, Cut(bytes, capacity), capacity)
    ensures Framed(packets[1..], Cut(tail, capacity), capacity)
    ensures Stream(packets, false).0 == head + Stream(packets[1..], false).0
  {
    hide Rest, Clean, Carries, OpenAfter;
    var chunks := Cut(bytes, capacity);
    assert chunks == [head] + Cut(tail, capacity) && chunks[1..] == Cut(tail, capacity);
    assert Carries(packets[0], chunks[0], capacity);
    CleanData(false, head, false);
    assert head + [] == head;
    DataOpensNothing(head);
    PacketIntactIffClean(packets[0], head, capacity, false);
    forall i | 0 <= i < |packets[1..]| ensures Carries(packets[1..][i], chunks[1..][i], capacity) {
      assert Carries(packets[i + 1], chunks[i + 1], capacity);
    }
  }

  /**
   Why the stream must be well-formed: an End packet with `n` payload bytes while no SysEx is open is read back
   as written if and only if the end byte gets a packet to itself, that is, if n is a multiple of the payload
   that fits a packet.
   */
  lemma UnopenedEndIsDamaged(packets: seq<Packet>, u: Ump, capacity: nat)
    requires capacity >= 3 && IsSysEx7Packet(u) && SysExStatusOf(u) == Some(End)
    requires Framed(packets, Cut(OwnBytes(u), capacity), capacity)
    ensures Stream(packets, false).0 == OwnBytes(u) <==> SizeOf(PayloadSize(u)) % (capacity - 2) == 0
  {
    hide Group, ReadLane, PayloadSize, SysExStatusOf, Framed, Cut, Stream;
    var lanes := Lanes(u, SizeOf(PayloadSize(u)));
    SysExBytes(u);
    assert [] + (lanes + [SYS_EX_END]) == lanes + [SYS_EX_END];
    forall i | 0 <= i < |lanes| ensures lanes[i] < 0x80 {
      DataBytesLow(u, i);
    }
    EndReadBack(packets, lanes, capacity);
  }

  function Flatten(batches: seq<seq<Packet>>): seq<Packet> {
    if batches == [] then [] else batches[0] + Flatten(batches[1..])
  }

  /** One batch of packets for each UMP, framed as the sender frames it. */
  predicate Batched(batches: seq<seq<Packet>>, us: seq<Ump>, capacity: nat)
    requires capacity >= 3
  {
    |batches| == |us| &&
    forall i :: 0 <= i < |us| ==> Framed(batches[i], Cut(OwnBytes(us[i]), capacity), capacity)
  }

  /**
   Framing round trip: for every capacity of at least three, the bytes read from the packets written for
   a well-formed UMP stream are exactly the MIDI bytes of the stream, whatever the timestamps are.
   */
  lemma {:induction false} FramingRoundTrip(batches: seq<seq<Packet>>, us: seq<Ump>, capacity: nat, open: bool)
    requires capacity >= 3 && Batched(batches, us, capacity) && WellFormed(open, us)
    ensures Stream(Flatten(batches), open).0 == AllBytes(us)
    decreases |us|
  {
    hide Stream, Cut, Framed, Unopened, OwnBytes, OpenAfter;
    if us == [] {
      StreamNothing(open);
    } else {
      var bytes := OwnBytes(us[0]);
      assert Framed(batches[0], Cut(bytes, capacity), capacity);
      PrintsClean(open, us[0]);
      CutReadBack(batches[0], bytes, capacity, open);
      forall i | 0 <= i < |us[1..]|
        ensures Framed(batches[1..][i], Cut(OwnBytes(us[1..][i]), capacity), capacity)
      {
        assert Framed(batches[i + 1], Cut(OwnBytes(us[i + 1]), capacity), capacity);
      }
      FramingRoundTrip(batches[1..], us[1..], capacity, OpenAfter(open, bytes));
      StreamAppend(batches[0], Flatten(batches[1..]), open);
    }
  }

  lemma StreamNothing(open: bool)
    ensures Stream([], open) == ([], open)
  {
  }
}
