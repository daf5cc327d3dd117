/** The BLE transport object: what it puts on the air for a packet, and what it makes of what arrives. */
module MidiTransportBle {
  import opened Prelude
  import opened MidiUmp
  import opened MidiCodec
  import opened MidiStream
  import opened MidiBle

  // ---------------------------------------------------------------- sending, on values

  /**
   `i` bytes of a message have been written: `packets` are out and carry its first pieces, and the bytes from
   `done` on are in the buffer after the two header bytes.
   */
  ghost predicate Sending(bytes: seq<bv8>, i: nat, done: nat, packets: seq<Packet>, tx: Packet, capacity: nat) {
    && capacity >= 3 && done <= i <= |bytes| && |tx.data| == capacity && tx.size == 2 + (i - done) <= capacity
    && tx.data[0] >= 0x80 && tx.data[1] >= 0x80 && tx.data[2..tx.size] == bytes[done..i]
    && |packets| <= |Cut(bytes, capacity)|
    && Framed(packets, Cut(bytes, capacity)[..|packets|], capacity)
    && Cut(bytes, capacity)[|packets|..] == Cut(bytes[done..], capacity)
  }

  lemma SendingBegins(bytes: seq<bv8>, tx: Packet, capacity: nat)
    requires capacity >= 3 && |tx.data| == capacity && tx.size == 2 && tx.data[0] >= 0x80 && tx.data[1] >= 0x80
    ensures Sending(bytes, 0, 0, [], tx, capacity)
  {
    hide Cut;
    assert bytes[0..] == bytes;
    assert tx.data[2..2] == bytes[0..0];
  }

  lemma SendingByte(bytes: seq<bv8>, i: nat, done: nat, packets: seq<Packet>, tx: Packet, capacity: nat)
    requires Sending(bytes, i, done, packets, tx, capacity) && i < |bytes| && tx.size < capacity
    ensures Sending(bytes, i + 1, done, packets, Packet(tx.data[tx.size := bytes[i]], tx.size + 1), capacity)
  {
    hide Cut, Framed;
    var data := tx.data[tx.size := bytes[i]];
    assert data[2..tx.size + 1] == data[2..tx.size] + [bytes[i]];
    assert data[2..tx.size] == tx.data[2..tx.size];
    assert bytes[done..i + 1] == bytes[done..i] + [bytes[i]];
  }

  lemma FullPacketCut(bytes: seq<bv8>, done: nat, i: nat, capacity: nat)
    requires capacity >= 3 && done <= i < |bytes| && i - done == capacity - 2
    ensures Cut(bytes[done..], capacity) == [bytes[done..i]] + Cut(bytes[i..], capacity)
  {
    assert bytes[done..][..capacity - 2] == bytes[done..i];
    assert bytes[done..][capacity - 2..] == bytes[i..];
  }

  /** One more packet carries one more piece. */
  lemma PieceOut(chunks: seq<seq<bv8>>, packets: seq<Packet>, p: Packet, chunk: seq<bv8>, capacity: nat)
    requires |packets| < |chunks| && chunks[|packets|] == chunk && Carries(p, chunk, capacity)
    requires Framed(packets, chunks[..|packets|], capacity)
    ensures Framed(packets + [p], chunks[..|packets| + 1], capacity)
  {
    hide Carries;
    forall k | 0 <= k < |packets| + 1 ensures Carries((packets + [p])[k], chunks[..|packets| + 1][k], capacity) {
      if k < |packets| {
        assert Carries(packets[k], chunks[..|packets|][k], capacity);
      }
    }
  }

  lemma SendingPacket(bytes: seq<bv8>, i: nat, done: nat, packets: seq<Packet>, tx: Packet, capacity: nat,
                      next: seq<bv8>)
    requires Sending(bytes, i, done, packets, tx, capacity) && i < |bytes| && tx.size == capacity
    requires |next| == capacity && next[0] >= 0x80 && next[1] >= 0x80 && next[2] == bytes[i]
    ensures Sending(bytes, i + 1, i, packets + [tx], Packet(next, 3), capacity)
    ensures |packets| < |Cut(bytes, capacity)|
  {
    hide Cut, Framed;
    var chunks := Cut(bytes, capacity);
    FullPacketCut(bytes, done, i, capacity);
    assert chunks[|packets|..][0] == bytes[done..i];
    PieceOut(chunks, packets, tx, bytes[done..i], capacity);
    assert chunks[|packets|..][1..] == chunks[|packets| + 1..];
    assert ([bytes[done..i]] + Cut(bytes[i..], capacity))[1..] == Cut(bytes[i..], capacity);
    assert next[2..3] == [bytes[i]] == bytes[i..i + 1];
  }

  /** The buffer is full and the backend refuses it. */
  lemma SendingStops(bytes: seq<bv8>, i: nat, done: nat, packets: seq<Packet>, tx: Packet, capacity: nat)
    requires Sending(bytes, i, done, packets, tx, capacity) && i < |bytes| && tx.size == capacity
    ensures |packets| < |Cut(bytes, capacity)| && Framed(packets, Cut(bytes, capacity)[..|packets|], capacity)
  {
    hide Cut, Framed;
    FullPacketCut(bytes, done, i, capacity);
  }

  /** All bytes are written; a buffer with something in it is the last packet. */
  lemma SendingEnds(bytes: seq<bv8>, done: nat, packets: seq<Packet>, tx: Packet, capacity: nat)
    requires Sending(bytes, |bytes|, done, packets, tx, capacity)
    ensures Framed(packets + if tx.size <= 2 then [] else [tx], Cut(bytes, capacity), capacity)
  {
    hide Framed;
    var chunks := Cut(bytes, capacity);
    LastPacketCut(bytes, done, capacity);
    hide Cut;
    if tx.size > 2 {
      assert bytes[done..] == bytes[done..|bytes|];
      assert chunks[|packets|..][0] == bytes[done..];
      PieceOut(chunks, packets, tx, bytes[done..], capacity);
      assert chunks[..|packets| + 1] == chunks;
    } else {
      assert packets + [] == packets && chunks[..|packets|] == chunks;
    }
  }

  lemma LastPacketCut(bytes: seq<bv8>, done: nat, capacity: nat)
    requires capacity >= 3 && done <= |bytes| && |bytes| - done <= capacity - 2
    ensures Cut(bytes[done..], capacity) == if done == |bytes| then [] else [bytes[done..]]
  {
  }

  lemma NothingCut(room: Option<nat>, capacity: nat)
    requires capacity >= 3
    ensures Framed([], Taken(room, Cut([], capacity)), capacity)
  {
  }

  /** The last flush of a message: what is out then, and whether that is all. */
  lemma LastFlush(room: Option<nat>, packets: seq<Packet>, unsent: seq<Packet>, chunks: seq<seq<bv8>>, capacity: nat)
    requires Framed(packets + unsent, chunks, capacity) && |unsent| <= 1 && Spent(room, |packets|)
    ensures unsent == [] || After(room, |packets|) != Some(0) ==>
              && TakesAll(room, chunks) && Framed(packets + unsent, Taken(room, chunks), capacity)
              && After(room, |packets + unsent|) ==
                 (if unsent == [] then After(room, |packets|) else After(After(room, |packets|), 1))
    ensures unsent != [] && After(room, |packets|) == Some(0) ==>
              !TakesAll(room, chunks) && Framed(packets, Taken(room, chunks), capacity)
  {
    hide Framed;
    SameCount(packets + unsent, chunks, capacity);
    if unsent != [] && After(room, |packets|) == Some(0) {
      FirstFramed(packets, unsent, chunks, capacity);
    }
  }

  /** A refusal before the last flush. */
  lemma Stopped(room: Option<nat>, packets: seq<Packet>, chunks: seq<seq<bv8>>, capacity: nat)
    requires Spent(room, |packets|) && After(room, |packets|) == Some(0) && |packets| < |chunks|
    requires Framed(packets, chunks[..|packets|], capacity)
    ensures !TakesAll(room, chunks) && Framed(packets, Taken(room, chunks), capacity)
  {
    hide Framed;
  }

  lemma SameCount(packets: seq<Packet>, chunks: seq<seq<bv8>>, capacity: nat)
    requires Framed(packets, chunks, capacity)
    ensures |packets| == |chunks|
  {
  }

  /** All but the packets that have not been sent. */
  lemma FirstFramed(packets: seq<Packet>, more: seq<Packet>, chunks: seq<seq<bv8>>, capacity: nat)
    requires Framed(packets + more, chunks, capacity)
    ensures |packets| <= |chunks| && Framed(packets, chunks[..|packets|], capacity)
  {
    hide Carries;
    forall i | 0 <= i < |packets| ensures Carries(packets[i], chunks[i], capacity) {
      assert (packets + more)[i] == packets[i];
    }
  }

  /** A writer that never refuses gets all the packet prints to. */
  lemma AllPrinted(packet: Ump, ok: bool, bytes: seq<bv8>)
    requires
      var printed := Print(packet, Group(packet));
      if printed.None? then !ok && bytes == []
      else ok == TakesAll(None, printed.value) && bytes == Taken(None, printed.value)
    ensures ok == Print(packet, Group(packet)).Some? && bytes == OwnBytes(packet)
  {
    hide Print, Group;
  }

  /** One byte of what is to be returned of a packet. */
  lemma RestUnfolded(p: Packet, index: nat, search: bool, open: bool)
    requires p.size <= |p.data|
    ensures index >= p.size ==> Rest(p, index, search, open) == ([], open)
    ensures index < p.size && search && p.data[index] >= MIDI_STATUS_MIN ==>
              Rest(p, index, search, open) == Rest(p, index + 1, false, open)
    ensures index < p.size && search && p.data[index] < MIDI_STATUS_MIN ==>
              Rest(p, index, search, open) ==
              if index == 1 then ([p.data[1]] + Rest(p, 2, false, open).0, Rest(p, 2, false, open).1) else ([], open)
    ensures index < p.size && !search ==>
              var now := Track(open, p.data[index]);
              var due := !now && index + 1 < p.size && p.data[index + 1] >= MIDI_STATUS_MIN;
              var (more, after) := Rest(p, index + 1, due, now);
              Rest(p, index, search, open) == ([p.data[index]] + more, after)
  {
  }

  lemma Associate(x: bv8, a: seq<bv8>, b: seq<bv8>)
    ensures ([x] + a) + b == [x] + (a + b)
  {
  }

  /** What is left of the backend's room when it has taken `n` packets. */
  function After(room: Option<nat>, n: nat): Option<nat> {
    if room.None? then None else if room.value < n then Some(0) else Some(room.value - n)
  }

  /** The backend can have taken `n` packets. */
  predicate Spent(room: Option<nat>, n: nat) {
    room.None? || n <= room.value
  }

  lemma OversizedPacket(p: Packet, index: nat, search: bool, open: bool)
    requires p.size > |p.data|
    ensures Rest(p, index, search, open) == ([], open)
  {
  }

  /** A byte behind the header leaves it as it is. */
  lemma HeaderKept(data: seq<bv8>, size: nat, k: nat, byte: bv8, time: bv16)
    requires 2 <= k < |data| && Headed(Packet(data, size), time)
    ensures Headed(Packet(data[k := byte], k + 1), time)
  {
  }

  /** How many bytes of the message have been asked for when its packet `j` is begun. */
  function Begun(j: nat, capacity: nat): nat
    requires capacity >= 3
  {
    if j == 0 then 0 else Times(j, capacity - 2) + 1
  }

  /** Packet `j` has the header of the time when it was begun. */
  predicate AllHeaded(packets: seq<Packet>, clock: nat -> bv16, capacity: nat)
    requires capacity >= 3
  {
    forall j :: 0 <= j < |packets| ==> Headed(packets[j], clock(Begun(j, capacity)))
  }

  lemma MoreHeaded(packets: seq<Packet>, p: Packet, clock: nat -> bv16, capacity: nat)
    requires capacity >= 3 && AllHeaded(packets, clock, capacity)
    requires Headed(p, clock(Begun(|packets|, capacity)))
    ensures AllHeaded(packets + [p], clock, capacity)
  {
    hide Headed, Begun;
  }

  lemma NoneHeaded(clock: nat -> bv16, capacity: nat)
    requires capacity >= 3
    ensures AllHeaded([], clock, capacity) && Begun(0, capacity) == 0 && Times(0, capacity - 2) == 0
  {
  }

  lemma FirstHeaded(packets: seq<Packet>, more: seq<Packet>, clock: nat -> bv16, capacity: nat)
    requires capacity >= 3 && AllHeaded(packets + more, clock, capacity)
    ensures AllHeaded(packets, clock, capacity)
  {
    hide Headed, Begun;
    forall j | 0 <= j < |packets| ensures Headed(packets[j], clock(Begun(j, capacity))) {
      assert (packets + more)[j] == packets[j];
    }
  }

  lemma OneMoreBegun(n: nat, capacity: nat)
    requires capacity >= 3
    ensures Begun(n + 1, capacity) == Times(n, capacity - 2) + capacity - 1
    ensures Times(n + 1, capacity - 2) == Times(n, capacity - 2) + capacity - 2
  {
  }

  class Transport {
    const capacity: nat
    const txData: array<bv8>
    const parser: Midi1ByteToUmpParser
    var txSize: nat
    /** What the backend has been given to transmit, and what it has yet to deliver. */
    var sent: seq<Packet>
    var queue: seq<Packet>
    /** How many packets the backend takes before it refuses one; None when it refuses none. */
    var room: Option<nat>
    var rxPacket: Packet
    var rxIndex: nat
    var rxActive: bool
    var rxSearch: bool
    var rxSysExActive: bool

    predicate Shape()
      reads parser
    {
      && capacity >= 3 && txData.Length == capacity && parser.Shape()
      && txData != parser.pending && txData != parser.sysexBuffer
    }

    predicate Valid()
      reads this`txSize, txData, parser, parser.pending, parser.sysexBuffer
    {
      Shape() && txSize <= capacity && parser.Valid()
    }

    /** The MIDI bytes that are still to be read. */
    function Remaining(): seq<bv8>
      reads this
    {
      if rxActive then
        var (first, now) := Rest(rxPacket, rxIndex, rxSearch, rxSysExActive);
        first + Stream(queue, now).0
      else Stream(queue, rxSysExActive).0
    }

    /** The packets that reading will produce. */
    function Incoming(): seq<Ump>
      requires Valid()
      reads this, txData, parser, parser.pending, parser.sysexBuffer
    {
      ParseAll(parser.State(), Remaining(), DEFAULT_RX_GROUP).1
    }

    constructor (capacity: nat)
      requires capacity >= 3
      ensures Valid() && this.capacity == capacity && sent == [] && queue == [] && Remaining() == []
      ensures fresh(txData) && fresh(parser) && fresh(parser.pending) && fresh(parser.sysexBuffer)
    {
      this.capacity := capacity;
      txData := new bv8[capacity](_ => 0);
      parser := new Midi1ByteToUmpParser();
      txSize, sent, queue, room := 0, [], [], None;
      rxPacket, rxIndex, rxActive, rxSearch, rxSysExActive := Packet([], 0), 0, false, true, false;
    }

    /** `init`: nothing of a packet that was being read survives, whether or not the backend starts. */
    method Init(backend: bool) returns (ok: bool)
      requires Valid()
      modifies this, parser, parser.pending, parser.sysexBuffer
      ensures Valid() && parser.State() == INITIAL && Remaining() == Stream(queue, false).0
      ensures sent == old(sent) && queue == old(queue) && txSize == old(txSize)
      ensures ok == backend
    {
      parser.Reset();
      rxActive := false;
      rxIndex := 0;
      rxSearch := true;
      rxSysExActive := false;
      ok := backend;
    }

    method StartPacket(time: bv16)
      requires Valid()
      modifies this`txSize, txData
      ensures Valid() && txSize == 2 && Headed(Packet(txData[..], 2), time)
      ensures txData[..] == [0x80 + ((time % 0x2000) / 0x80) as bv8, 0x80 + (time % 0x80) as bv8] + old(txData[2..])
    {
      hide HeaderByte, TimestampByte;
      HeaderCarriesTime(time);
      txData[0] := HeaderByte(time);
      txData[1] := TimestampByte(time);
      txSize := 2;
    }

    /** Packets with nothing after the header are not sent; the backend may refuse the others. */
    method FlushPacket() returns (ok: bool)
      requires Valid()
      modifies this`sent, this`room
      ensures Valid() && ok == (txSize <= 2 || old(room) != Some(0))
      ensures
        if txSize <= 2 || !ok then sent == old(sent) && room == old(room)
        else sent == old(sent) + [Packet(txData[..], txSize)] && room == After(old(room), 1)
    {
      if txSize <= 2 {
        return true;
      }
      if room == Some(0) {
        return false;
      }
      sent := sent + [Packet(txData[..], txSize)];
      room := After(room, 1);
      ok := true;
    }

    method WriteMidiByte(data: bv8, time: bv16) returns (ok: bool)
      requires Valid() && txSize >= 2
      modifies this`sent, this`room, this`txSize, txData
      ensures Valid() && ok == (old(txSize) < capacity || old(room) != Some(0))
      ensures
        if !ok then
          sent == old(sent) && room == old(room) && txSize == old(txSize) && txData[..] == old(txData[..])
        else if old(txSize) >= capacity then
          && sent == old(sent) + [Packet(old(txData[..]), capacity)] && room == After(old(room), 1)
          && txSize == 3 && Headed(Packet(txData[..], 3), time) && txData[2] == data
        else
          && sent == old(sent) && room == old(room) && txSize == old(txSize) + 1
          && txData[..] == old(txData[..])[old(txSize) := data]
    {
      hide Headed;
      if txSize >= txData.Length {
        ok := FlushPacket();
        if !ok {
          return;
        }
        StartPacket(time);
        HeaderKept(txData[..], 2, 2, data, time);
      }
      txData[txSize] := data;
      txSize := txSize + 1;
      ok := true;
    }

    /** What is in the buffer and would be sent by a flush. */
    function Unsent(): seq<Packet>
      requires Valid()
      reads this`txSize, txData, parser, parser.pending, parser.sysexBuffer
    {
      if txSize <= 2 then [] else [Packet(txData[..], txSize)]
    }

    /**
     The bytes of one message, written one by one as they are printed, until the backend refuses a packet: then
     as many of the packets are out as it took.
     */
    method WriteMidiBytes(bytes: seq<bv8>, clock: nat -> bv16) returns (ok: bool)
      requires Valid() && txSize == 2 && Headed(Packet(txData[..], 2), clock(0))
      modifies this`sent, this`room, this`txSize, txData
      ensures Valid() && |old(sent)| <= |sent| && sent[..|old(sent)|] == old(sent)
      ensures Spent(old(room), |sent| - |old(sent)|) && room == After(old(room), |sent| - |old(sent)|)
      ensures ok ==> Framed(sent[|old(sent)|..] + Unsent(), Cut(bytes, capacity), capacity)
      ensures ok ==> AllHeaded(sent[|old(sent)|..] + Unsent(), clock, capacity)
      ensures !ok ==>
                && room == Some(0) && |sent| - |old(sent)| < |Cut(bytes, capacity)|
                && Framed(sent[|old(sent)|..], Cut(bytes, capacity)[..|sent| - |old(sent)|], capacity)
                && AllHeaded(sent[|old(sent)|..], clock, capacity)
    {
      hide Cut, Framed, Sending, Headed, AllHeaded, Begun, Times;
      ghost var packets: seq<Packet> := [];
      ghost var done := 0;
      var i := 0;
      HeadedHigh(Packet(txData[..], 2), clock(0));
      SendingBegins(bytes, Packet(txData[..], txSize), capacity);
      NoneHeaded(clock, capacity);
      while i < |bytes|
        invariant Valid() && txSize >= 2 && i <= |bytes|
        invariant Sending(bytes, i, done, packets, Packet(txData[..], txSize), capacity)
        invariant sent == old(sent) + packets
        invariant Spent(old(room), |packets|) && room == After(old(room), |packets|)
        invariant done == Times(|packets|, capacity - 2) && txSize == 2 + (i - done)
        invariant AllHeaded(packets, clock, capacity)
        invariant Headed(Packet(txData[..], txSize), clock(Begun(|packets|, capacity)))
      {
        ghost var tx := Packet(txData[..], txSize);
        ok := WriteMidiByte(bytes[i], clock(i + 1));
        if !ok {
          SendingStops(bytes, i, done, packets, tx, capacity);
          assert sent[|old(sent)|..] == packets;
          return;
        }
        if tx.size < capacity {
          SendingByte(bytes, i, done, packets, tx, capacity);
          HeaderKept(tx.data, tx.size, tx.size, bytes[i], clock(Begun(|packets|, capacity)));
        } else {
          HeadedHigh(Packet(txData[..], 3), clock(i + 1));
          SendingPacket(bytes, i, done, packets, tx, capacity, txData[..]);
          MoreHeaded(packets, tx, clock, capacity);
          OneMoreBegun(|packets|, capacity);
          packets, done := packets + [tx], i;
        }
        i := i + 1;
      }
      ok := true;
      SendingEnds(bytes, done, packets, Packet(txData[..], txSize), capacity);
      MoreHeaded(packets, Packet(txData[..], txSize), clock, capacity);
      assert packets + [] == packets;
      assert sent[|old(sent)|..] == packets;
    }

    /**
     `write`: the packet's MIDI bytes go out cut at the capacity, as many of the pieces as the backend takes; a
     packet that does not print sends nothing.  `clock` tells the time when the message is begun and when each
     byte is written; every piece has the header of the time when it was begun.
     */
    method Write(packet: Ump, clock: nat -> bv16) returns (ok: bool)
      requires Valid()
      modifies this`sent, this`room, this`txSize, txData
      ensures Valid()
      ensures ok == (Print(packet, Group(packet)).Some? && TakesAll(old(room), Cut(OwnBytes(packet), capacity)))
      ensures |old(sent)| <= |sent| && sent[..|old(sent)|] == old(sent)
      ensures Framed(sent[|old(sent)|..], Taken(old(room), Cut(OwnBytes(packet), capacity)), capacity)
      ensures room == After(old(room), |sent| - |old(sent)|)
      ensures AllHeaded(sent[|old(sent)|..], clock, capacity)
    {
      hide Cut, Framed, Print, OwnBytes, Taken, TakesAll, Group, AllHeaded, Headed;
      StartPacket(clock(0));
      var bytes;
      ok, bytes := WriteUmpAsMidi1Bytes(packet, Group(packet), None);
      AllPrinted(packet, ok, bytes);
      NoneHeaded(clock, capacity);
      if !ok {
        NothingCut(room, capacity);
        assert sent[|old(sent)|..] == [];
        return;
      }
      ok := WriteMidiBytes(bytes, clock);
      ghost var packets, unsent := sent[|old(sent)|..], Unsent();
      if !ok {
        Stopped(old(room), packets, Cut(bytes, capacity), capacity);
        return;
      }
      LastFlush(old(room), packets, unsent, Cut(bytes, capacity), capacity);
      FirstHeaded(packets, unsent, clock, capacity);
      assert packets + [] == packets;
      ghost var before := sent;
      ok := FlushPacket();
      assert sent == before || sent == before + unsent;
      assert (before + unsent)[|old(sent)|..] == packets + unsent;
    }

    /** The inner loop of `read_midi_byte`: on through the packet at hand, to its next MIDI byte if it has one. */
    method ScanPacket() returns (r: Option<bv8>)
      requires rxActive && rxPacket.size <= |rxPacket.data|
      modifies this`rxIndex, this`rxSearch, this`rxSysExActive
      ensures
        var (was, after) := old(Rest(rxPacket, rxIndex, rxSearch, rxSysExActive));
        if r.None? then was == [] && after == rxSysExActive
        else
          var (now, later) := Rest(rxPacket, rxIndex, rxSearch, rxSysExActive);
          was == [r.value] + now && after == later
    {
      hide Rest;
      while rxIndex < rxPacket.size
        invariant Rest(rxPacket, rxIndex, rxSearch, rxSysExActive) ==
          old(Rest(rxPacket, rxIndex, rxSearch, rxSysExActive))
        decreases rxPacket.size - rxIndex
      {
        RestUnfolded(rxPacket, rxIndex, rxSearch, rxSysExActive);
        var index := rxIndex;
        rxIndex := rxIndex + 1;
        var data := rxPacket.data[index];
        if rxSearch {
          if data < MIDI_STATUS_MIN {
            if index == 1 {
              rxSearch := false;
              return Some(data);
            }
            break;
          }
          rxSearch := false;
          continue;
        }
        if data == SYS_EX_START {
          rxSysExActive := true;
        } else if data == SYS_EX_END {
          rxSysExActive := false;
        }
        if !rxSysExActive && index + 1 < rxPacket.size {
          if rxPacket.data[index + 1] >= MIDI_STATUS_MIN {
            rxSearch := true;
          }
        }
        return Some(data);
      }
      RestUnfolded(rxPacket, rxIndex, rxSearch, rxSysExActive);
      return None;
    }

    /** Takes the next packet from the backend, if there is one. */
    method NextPacket() returns (ok: bool)
      requires !rxActive
      modifies this`queue, this`rxPacket, this`rxIndex, this`rxActive, this`rxSearch
      ensures rxActive == ok && Remaining() == old(Remaining())
      ensures if ok then |queue| < |old(queue)| else Remaining() == []
    {
      hide Rest, Stream;
      if queue == [] {
        StreamNothing(rxSysExActive);
        return false;
      }
      StreamNext(queue, rxSysExActive);
      rxPacket := queue[0];
      queue := queue[1..];
      rxIndex := 1;
      rxActive := true;
      rxSearch := true;
      return true;
    }

    /** `read_midi_byte`: the next MIDI byte that has arrived, with the timestamps left out. */
    method ReadMidiByte() returns (r: Option<bv8>)
      modifies this`queue, this`rxPacket, this`rxIndex, this`rxActive, this`rxSearch, this`rxSysExActive
      ensures old(Remaining()) == if r.Some? then [r.value] + Remaining() else []
      ensures r.None? ==> Remaining() == []
    {
      hide Rest, Stream;
      while true
        invariant Remaining() == old(Remaining())
        decreases |queue|, rxActive
      {
        if !rxActive {
          var ok := NextPacket();
          if !ok {
            return None;
          }
        }
        if rxPacket.size > |rxPacket.data| {
          OversizedPacket(rxPacket, rxIndex, rxSearch, rxSysExActive);
          rxActive := false;
          continue;
        }
        ghost var before, state := Remaining(), Rest(rxPacket, rxIndex, rxSearch, rxSysExActive);
        assert before == state.0 + Stream(queue, state.1).0;
        r := ScanPacket();
        ghost var now := Rest(rxPacket, rxIndex, rxSearch, rxSysExActive);
        if r.Some? {
          Associate(r.value, now.0, Stream(queue, state.1).0);
          return;
        }
        assert [] + Stream(queue, state.1).0 == Stream(queue, state.1).0;
        rxActive := false;
      }
    }

    /** `read`: the next packet that the arrived bytes make, if they complete one. */
    method Read() returns (packet: Option<Ump>)
      requires Valid()
      modifies this, parser, parser.pending, parser.sysexBuffer
      ensures Valid()
      ensures old(Incoming()) == if packet.Some? then [packet.value] + Incoming() else []
      ensures packet.None? ==> Remaining() == []
    {
      while true
        invariant Valid() && Incoming() == old(Incoming())
        decreases |Remaining()|
      {
        var data := ReadMidiByte();
        if data == None {
          return None;
        }
        packet := parser.Parse(data.value, DEFAULT_RX_GROUP);
        if packet.Some? {
          return;
        }
      }
    }
  }
}
