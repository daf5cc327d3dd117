/** The SysExConf object: one shared buffer for the message that arrives and the response that leaves. */
module SysExConf {
  import opened Prelude
  import opened MidiUmp
  import MidiCodec
  import MidiStream
  import opened SysExModel

  /** The data handler: any behaviour, and a record of what it was asked and given. */
  class DataHandler {
    const behaviour: Handler
    var log: seq<Event>
    var packets: seq<Ump>

    constructor (behaviour: Handler)
      ensures this.behaviour == behaviour && log == [] && packets == []
    {
      this.behaviour, log, packets := behaviour, [], [];
    }

    method Ask(call: Call, open: bool) returns (reply: Reply)
      modifies this`log
      ensures log == old(log) + [Event(call, open)] && reply == behaviour(log)
    {
      log := log + [Event(call, open)];
      reply := behaviour(log);
    }

    method SendResponse(us: seq<Ump>)
      modifies this`packets
      ensures packets == old(packets) + us
    {
      packets := packets + us;
    }
  }

  /** The packets that carry some frames. */
  function PacketsOf(frames: seq<seq<bv8>>): seq<Ump>
    requires forall i :: 0 <= i < |frames| ==> |frames[i]| >= 3
  {
    if frames == [] then []
    else
      var last := frames[|frames| - 1];
      PacketsOf(frames[..|frames| - 1]) + MidiCodec.Chain(0, last[1..|last| - 1])
  }

  class SysExConf {
    const handler: DataHandler
    const id: Id
    const buffer: array<bv8>
    var counter: nat
    var enabled: bool
    var ignoreErrors: bool
    var umpActive: bool
    var layout: Layout
    var customRequests: seq<CustomRequest>
    var decoded: Request
    /** The frames sent so far. */
    ghost var frames: seq<seq<bv8>>

    predicate Shape() {
      buffer.Length == MAX_MESSAGE_SIZE
    }

    ghost function State(): Conf
      requires Shape()
      reads this, buffer, handler
    {
      Conf(buffer[..], counter, enabled, ignoreErrors, umpActive, layout, customRequests, id, handler.log, frames)
    }

    /** The packets the handler was given are those of the frames sent. */
    ghost predicate Sent()
      reads this`frames, handler`packets
    {
      (forall i :: 0 <= i < |frames| ==> |frames[i]| >= 3) && handler.packets == PacketsOf(frames)
    }

    ghost predicate Valid()
      reads this, buffer, handler
    {
      Shape() && Ready(State()) && Sent()
    }

    constructor (handler: DataHandler, id: Id)
      requires handler.packets == []
      ensures Valid() && this.handler == handler && this.id == id && fresh(buffer)
      ensures !enabled && layout == [] && customRequests == [] && frames == []
    {
      this.handler, this.id := handler, id;
      buffer := new bv8[MAX_MESSAGE_SIZE](_ => 0);
      counter, enabled, ignoreErrors, umpActive := 0, false, false, false;
      layout, customRequests, decoded, frames := [], [], NO_REQUEST, [];
    }

    // ---------------------------------------------------------------- small pieces

    method SetStatus(status: bv8)
      requires Shape()
      modifies buffer
      ensures State() == SysExModel.SetStatus(old(State()), status)
    {
      buffer[STATUS_BYTE] := status & 0x7F;
    }

    method Push(b: bv8)
      requires Shape() && counter < MAX_MESSAGE_SIZE
      modifies this`counter, buffer
      ensures State() == SysExModel.Push(old(State()), b)
    {
      buffer[counter] := b;
      counter := counter + 1;
    }

    method AddToResponse(value: bv16) returns (ok: bool)
      requires Shape() && counter < MAX_MESSAGE_SIZE
      modifies this`counter, buffer
      ensures State() == SysExModel.AddToResponse(old(State()), value)
      ensures ok == (old(counter) < MAX_MESSAGE_SIZE - 1)
    {
      hide SplitHigh, SplitLow;
      if counter >= MAX_MESSAGE_SIZE - 1 {
        return false;
      }
      Push(SplitHigh(value));
      Push(SplitLow(value));
      return true;
    }

    /** The response in the buffer goes out as SysEx packets. */
    method SendResponse()
      requires Shape() && 2 <= counter < MAX_MESSAGE_SIZE && Sent()
      modifies this`counter, this`frames, buffer, handler`packets
      ensures State() == SysExModel.SendResponse(old(State())) && Sent()
    {
      hide MidiCodec.Chain;
      Push(SYS_EX_END);
      if counter < 2 || buffer[0] != SYS_EX_START || buffer[counter - 1] != SYS_EX_END {
        return;
      }
      var response := buffer[..counter];
      var payload := response[1..|response| - 1];
      var _, us := MidiStream.WriteSysEx7Payload(0, payload, None);
      handler.SendResponse(us);
      frames := frames + [response];
      assert frames[..|frames| - 1] == old(frames);
    }

    method ResetUmpMessage()
      requires Shape()
      modifies this`counter, this`umpActive
      ensures State() == ResetUmp(old(State()))
    {
      counter := 0;
      umpActive := false;
    }

    method ResetDecodedRequest()
      modifies this`decoded
      ensures decoded == NO_REQUEST
    {
      decoded := NO_REQUEST;
    }

    // ---------------------------------------------------------------- standard requests

    method DecodeStandardRequest(size: nat) returns (ok: bool)
      requires Shape() && Open(State()) && size <= MAX_MESSAGE_SIZE
      modifies this`decoded, buffer
      ensures
        var (c, q) := Decode(old(State()), size);
        State() == c && (ok <==> q.Some?) && (ok ==> decoded == q.value)
    {
      hide Merge, Num, Num16, PartOk, MessageLength;
      if size < STD_REQ_MIN_MSG_SIZE - BYTES_PER_VALUE {
        SetStatus(ERROR_MESSAGE_LENGTH);
        return false;
      }
      if !enabled {
        SetStatus(ERROR_CONNECTION);
        return false;
      }
      decoded := Request(buffer[WISH_BYTE], buffer[AMOUNT_BYTE], Num(buffer[BLOCK_BYTE]), Num(buffer[SECTION_BYTE]),
                         Num(buffer[PART_BYTE]), 0, 0);
      var refusal := Refusal(layout, decoded, size);
      if refusal.Some? {
        SetStatus(refusal.value);
        return false;
      }
      SetStatus(ACK);
      if decoded.amount == AMOUNT_SINGLE {
        decoded := decoded.(index := Num16(Merge(buffer[INDEX_BYTE], buffer[INDEX_BYTE + 1])));
        if decoded.wish == WISH_SET {
          decoded := decoded.(newValue := Merge(buffer[INDEX_BYTE + 2], buffer[INDEX_BYTE + 3]));
        }
      }
      return true;
    }

    method GetValue(i: nat) returns (ok: bool)
      requires Shape() && Open(State()) && HasSection(layout, decoded.block, decoded.section) && HasRoom(State(), 1)
      modifies this`counter, buffer, handler`log
      ensures (State(), ok) == GetStep(old(State()), decoded, i, handler.behaviour)
      ensures counter >= old(counter)
    {
      hide SplitHigh, SplitLow;
      var single := decoded.amount == AMOUNT_SINGLE;
      if single && decoded.index >= layout[decoded.block][decoded.section].count {
        SetStatus(ERROR_INDEX);
        return false;
      }
      var reply := handler.Ask(Get(decoded.block, decoded.section, if single then decoded.index else i), enabled);
      if reply.status == ACK {
        var added := AddToResponse(reply.value);
        return true;
      }
      if ignoreErrors {
        var added := AddToResponse(0);
        return true;
      }
      SetStatus(reply.status);
      return false;
    }

    method SetValue(i: nat, start: nat) returns (ok: bool)
      requires Shape() && Open(State()) && HasSection(layout, decoded.block, decoded.section)
      requires start <= i < start + PARAMS_PER_MESSAGE
      modifies buffer, handler`log
      ensures (State(), ok) == SetStep(old(State()), decoded, i, start, handler.behaviour)
    {
      hide Merge, NewValueOk;
      var section := layout[decoded.block][decoded.section];
      var index := i;
      var newValue := decoded.newValue;
      if decoded.amount == AMOUNT_SINGLE {
        if decoded.index >= section.count {
          SetStatus(ERROR_INDEX);
          return false;
        }
        index := decoded.index;
      } else {
        var arrayIndex := ValueAt(i, start);
        newValue := Merge(buffer[arrayIndex], buffer[arrayIndex + 1]);
      }
      if !NewValueOk(section, newValue) {
        SetStatus(ERROR_NEW_VALUE);
        return false;
      }
      var reply := handler.Ask(Set(decoded.block, decoded.section, index, newValue), enabled);
      if reply.status != ACK && !ignoreErrors {
        SetStatus(reply.status);
        return false;
      }
      return true;
    }

    /** The inner loop of `process_standard_request`. */
    method ProcessValues(start: nat, end: nat) returns (ok: bool)
      requires Shape() && Open(State()) && HasSection(layout, decoded.block, decoded.section)
      requires end <= start + PARAMS_PER_MESSAGE
      requires decoded.wish == WISH_GET ==> HasRoom(State(), PARAMS_PER_MESSAGE)
      modifies this`counter, buffer, handler`log
      ensures (State(), ok) == Values(old(State()), decoded, start, start, end, handler.behaviour)
      ensures counter >= old(counter)
    {
      hide GetStep, SetStep, HasRoom;
      var i := start;
      while i < end
        invariant start <= i && Shape() && Open(State()) && counter >= old(counter)
        invariant decoded.wish == WISH_GET ==> HasRoom(State(), start + PARAMS_PER_MESSAGE - i)
        invariant
          Values(State(), decoded, i, start, end, handler.behaviour) ==
          Values(old(State()), decoded, start, start, end, handler.behaviour)
        decreases end - i
      {
        ghost var before := State();
        RoomForOne(before, start + PARAMS_PER_MESSAGE - i);
        if decoded.wish == WISH_GET {
          ok := GetValue(i);
          LessRoom(before, State(), start + PARAMS_PER_MESSAGE - i);
        } else {
          ok := SetValue(i, start);
        }
        if !ok {
          return;
        }
        i := i + 1;
      }
      return true;
    }

    /** The body of the loop of `process_standard_request` over the messages. */
    method ProcessPart(j: nat, allParts: bool, local: nat) returns (ok: bool)
      requires Shape() && HasSection(layout, decoded.block, decoded.section) && Sent()
      requires 2 <= local < MAX_MESSAGE_SIZE && (decoded.wish == WISH_GET ==> local < STD_REQ_MIN_MSG_SIZE)
      modifies this`counter, this`decoded, this`frames, buffer, handler
      ensures Sent() && (State(), ok) == PartMessage(old(State()), old(decoded), j, allParts, local, handler.behaviour)
      ensures decoded == PartRequest(old(decoded), j, allParts) && (!ok ==> counter >= 2)
    {
      hide Values, SysExModel.SendResponse, Byte8, FirstIndex, EndIndex, Sent;
      counter := local;
      if allParts {
        decoded := decoded.(part := j);
        buffer[PART_BYTE] := Byte8(j);
      }
      var start := FirstIndex(decoded);
      var end := EndIndex(layout[decoded.block][decoded.section], decoded);
      ok := ProcessValues(start, end);
      if ok {
        SendResponse();
      }
    }

    /** That loop. */
    method ProcessParts(parts: nat, allParts: bool, local: nat) returns (ok: bool)
      requires Shape() && HasSection(layout, decoded.block, decoded.section) && Sent()
      requires 2 <= local < MAX_MESSAGE_SIZE && (decoded.wish == WISH_GET ==> local < STD_REQ_MIN_MSG_SIZE)
      modifies this`counter, this`decoded, this`frames, buffer, handler
      ensures Sent()
      ensures (State(), ok) == PartLoop(old(State()), old(decoded), 0, parts, allParts, local, handler.behaviour)
      ensures decoded.(part := 0) == old(decoded).(part := 0) && (!ok ==> counter >= 2)
    {
      hide PartMessage, Sent;
      var j := 0;
      while j < parts
        invariant Shape() && HasSection(layout, decoded.block, decoded.section) && Sent()
        invariant decoded.(part := 0) == old(decoded).(part := 0)
        invariant
          PartLoop(State(), decoded, j, parts, allParts, local, handler.behaviour) ==
          PartLoop(old(State()), old(decoded), 0, parts, allParts, local, handler.behaviour)
        decreases parts - j
      {
        ok := ProcessPart(j, allParts, local);
        if !ok {
          return;
        }
        j := j + 1;
      }
      return true;
    }

    /** Bytes appended one by one. */
    method PushAll(bytes: seq<bv8>)
      requires Shape() && counter + |bytes| <= MAX_MESSAGE_SIZE
      modifies this`counter, buffer
      ensures counter == old(counter) + |bytes|
      ensures buffer[..] == old(buffer[..counter]) + bytes + old(buffer[counter + |bytes|..])
    {
      hide SysExModel.Push;
      ghost var before, start := buffer[..], counter;
      PushedNone(before, bytes, start);
      for i := 0 to |bytes|
        invariant counter == start + i && buffer[..] == Pushed(before, bytes, start, i)
      {
        buffer[counter] := bytes[i];
        counter := counter + 1;
        PushedNext(before, bytes, start, i);
      }
      assert bytes[..|bytes|] == bytes;
    }

    /** A buffer with the first `i` bytes put in from `start` on. */
    ghost static function Pushed(before: seq<bv8>, bytes: seq<bv8>, start: nat, i: nat): (r: seq<bv8>)
      requires start + |bytes| <= |before| && i <= |bytes|
      ensures |r| == |before|
    {
      before[..start] + bytes[..i] + before[start + i..]
    }

    static lemma PushedNone(before: seq<bv8>, bytes: seq<bv8>, start: nat)
      requires start + |bytes| <= |before|
      ensures Pushed(before, bytes, start, 0) == before
    {
    }

    static lemma PushedNext(before: seq<bv8>, bytes: seq<bv8>, start: nat, i: nat)
      requires start + |bytes| <= |before| && i < |bytes|
      ensures Pushed(before, bytes, start, i)[start + i := bytes[i]] == Pushed(before, bytes, start, i + 1)
    {
    }

    /** The acknowledgement after all parts. */
    method SendFinalAck()
      requires Shape() && Sent()
      modifies this`counter, this`frames, buffer, handler`packets
      ensures Sent() && State() == FinalAck(old(State()), decoded)
    {
      hide Byte8, SysExModel.SendResponse, Sent;
      ghost var before := State();
      var head :=
        [SYS_EX_START, id.id1, id.id2, id.id3, ACK, Byte8(PART_ALL_MESSAGES_WITH_ACK), decoded.wish, decoded.amount,
         Byte8(decoded.block), Byte8(decoded.section), 0, 0, 0, 0];
      counter := 0;
      PushAll(head);
      assert buffer[..] == head + before.buffer[14..];
      assert State() == before.(buffer := head + before.buffer[14..], counter := 14);
      SendResponse();
    }

    method ProcessStandardRequest(size: nat) returns (ok: bool)
      requires Shape() && Open(State()) && HasSection(layout, decoded.block, decoded.section) && Sent()
      requires size == counter + 1 && (decoded.wish == WISH_SET || size == STD_REQ_MIN_MSG_SIZE)
      requires decoded.wish <= WISH_BACKUP && counter >= 2
      modifies this`counter, this`decoded, this`frames, buffer, handler
      ensures Sent() && (State(), ok) == ProcessStandard(old(State()), old(decoded), size, handler.behaviour)
      ensures !ok ==> counter >= 2
    {
      hide PartLoop, Parts, FinalAck, Sent;
      var parts, local := 1, counter;
      var allParts, allPartsAck := false, false;
      if decoded.wish == WISH_BACKUP || decoded.wish == WISH_GET {
        if decoded.part == PART_ALL_MESSAGES || decoded.part == PART_ALL_MESSAGES_WITH_ACK {
          parts := Parts(layout[decoded.block][decoded.section]);
          allParts := true;
          allPartsAck := decoded.part == PART_ALL_MESSAGES_WITH_ACK;
        }
        if decoded.wish == WISH_BACKUP {
          buffer[STATUS_BYTE] := REQUEST;
          buffer[WISH_BYTE] := WISH_SET;
          decoded := decoded.(wish := WISH_GET);
          local := size - 1 - 2 * BYTES_PER_VALUE;
        }
      }
      ghost var q := decoded;
      ok := ProcessParts(parts, allParts, local);
      if ok && allPartsAck {
        FinalAckIgnoresPart(State(), q, decoded);
        SendFinalAck();
      }
    }

    // ---------------------------------------------------------------- special requests

    /** `CustomResponse::append` for the values a handler appends; true when one of them did not fit. */
    method AppendAll(values: seq<bv16>) returns (overflowed: bool)
      requires Shape() && counter < MAX_MESSAGE_SIZE
      modifies this`counter, buffer
      ensures (State(), overflowed) == Append(old(State()), values) && counter >= old(counter)
    {
      hide SplitHigh, SplitLow, Append, SysExModel.Push;
      overflowed := false;
      assert values[0..] == values;
      for i := 0 to |values|
        invariant Shape() && old(counter) <= counter < MAX_MESSAGE_SIZE
        invariant
          var (c, more) := Append(State(), values[i..]);
          (c, overflowed || more) == Append(old(State()), values)
      {
        AppendNext(State(), values, i);
        PushedCounter(State(), SplitHigh(values[i] & 0x3FFF));
        if counter + BYTES_PER_VALUE >= MAX_MESSAGE_SIZE {
          overflowed := true;
        } else {
          var v := values[i] & 0x3FFF;
          Push(SplitHigh(v));
          Push(SplitLow(v));
        }
      }
      AppendNext(State(), values, |values|);
    }

    static lemma PushedCounter(c: Conf, b: bv8)
      requires Open(c)
      ensures SysExModel.Push(c, b).counter == c.counter + 1
    {
    }

    static lemma AppendNext(c: Conf, values: seq<bv16>, i: nat)
      requires Open(c) && i <= |values|
      ensures
        Append(c, values[i..]) ==
        if i == |values| then (c, false)
        else if c.counter + BYTES_PER_VALUE >= MAX_MESSAGE_SIZE then (Append(c, values[i + 1..]).0, true)
        else
          var v := values[i] & 0x3FFF;
          Append(SysExModel.Push(SysExModel.Push(c, SplitHigh(v)), SplitLow(v)), values[i + 1..])
    {
      hide SplitHigh, SplitLow, SysExModel.Push;
      if i < |values| {
        assert values[i..][1..] == values[i + 1..];
      }
    }

    method ReplyCustom(request: nat)
      requires Shape() && counter < MAX_MESSAGE_SIZE
      modifies this`counter, buffer, handler`log
      ensures State() == CustomReply(old(State()), request, handler.behaviour) && counter >= old(counter)
    {
      hide Append;
      SetStatus(ACK);
      var reply := handler.Ask(Custom(request), enabled);
      var overflowed := AppendAll(reply.appended);
      if overflowed {
        SetStatus(ERROR_READ);
      } else if reply.status == REQUEST {
        SetStatus(ERROR_STATUS);
      } else if reply.status != ACK {
        SetStatus(reply.status);
      }
    }

    method SendConstant(n: nat)
      requires Shape() && counter + 2 < MAX_MESSAGE_SIZE
      modifies this`counter, buffer
      ensures State() == Constant(old(State()), n) && counter >= old(counter)
    {
      hide Byte8;
      if enabled {
        SetStatus(ACK);
        Push(0);
        Push(Byte8(n));
      } else {
        SetStatus(ERROR_CONNECTION);
      }
    }

    method FindCustomRequest(request: nat) returns (r: Option<CustomRequest>)
      ensures r == FindCustom(customRequests, request)
    {
      assert customRequests[0..] == customRequests;
      for i := 0 to |customRequests|
        invariant FindCustom(customRequests[i..], request) == FindCustom(customRequests, request)
      {
        assert customRequests[i..][1..] == customRequests[i + 1..];
        if customRequests[i].id == request {
          return Some(customRequests[i]);
        }
      }
      return None;
    }

    method ProcessSpecialRequest()
      requires Shape() && counter + 2 < MAX_MESSAGE_SIZE
      modifies this`counter, this`enabled, buffer, handler`log
      ensures State() == ProcessSpecial(old(State()), handler.behaviour) && counter >= old(counter)
    {
      hide CustomReply, Constant, FindCustom, Num;
      var wish := buffer[WISH_BYTE];
      if wish == CONN_CLOSE {
        if !enabled {
          SetStatus(ERROR_CONNECTION);
          return;
        }
        enabled := false;
        SetStatus(ACK);
      } else if wish == CONN_OPEN {
        enabled := true;
        SetStatus(ACK);
      } else if wish == GET_BYTES_PER_VALUE {
        SendConstant(BYTES_PER_VALUE);
      } else if wish == GET_PARAMS_PER_MESSAGE {
        SendConstant(PARAMS_PER_MESSAGE);
      } else {
        var found := FindCustomRequest(Num(wish));
        if found.None? {
          SetStatus(ERROR_WISH);
        } else if enabled || !found.value.connOpenCheck {
          ReplyCustom(found.value.id);
        } else {
          SetStatus(ERROR_CONNECTION);
        }
      }
    }

    // ---------------------------------------------------------------- requests and packets

    /** `handle_request`, for the message of `size` bytes in the buffer itself. */
    method HandleRequest()
      requires Shape() && Ready(State()) && Sent()
      modifies this`counter, this`enabled, this`decoded, this`frames, buffer, handler
      ensures Sent() && State() == SysExModel.HandleRequest(old(State()), handler.behaviour)
    {
      hide ProcessSpecial, ProcessStandard, Decode, SysExModel.SendResponse, SysExModel.SetStatus, Sent;
      var size := counter;
      if layout == [] || size < SPECIAL_REQ_MSG_SIZE || buffer[0] != SYS_EX_START || buffer[size - 1] != SYS_EX_END ||
         size > MAX_MESSAGE_SIZE
      {
        return;
      }
      ResetDecodedRequest();
      counter := size - 1;
      if !(buffer[1] == id.id1 && buffer[2] == id.id2 && buffer[3] == id.id3) {
        return;
      }
      if buffer[STATUS_BYTE] != REQUEST {
        SetStatus(ERROR_STATUS);
        SendResponse();
        return;
      }
      if size == SPECIAL_REQ_MSG_SIZE {
        ProcessSpecialRequest();
        SendResponse();
        return;
      }
      AnswerStandard(size);
    }

    /** The branch of `handle_request` for standard requests. */
    method AnswerStandard(size: nat)
      requires Shape() && Open(State()) && size == counter + 1 && counter >= 2 && Sent()
      modifies this`counter, this`decoded, this`frames, buffer, handler
      ensures Sent() && State() == StandardRequest(old(State()), size, handler.behaviour)
    {
      hide ProcessStandard, Decode, SysExModel.SendResponse, Sent;
      var ok := DecodeStandardRequest(size);
      if ok {
        ok := ProcessStandardRequest(size);
        if ok {
          return;
        }
      }
      ResetDecodedRequest();
      SendResponse();
    }

    method BeginMessage()
      requires Shape()
      modifies this`counter, this`umpActive, buffer
      ensures State() == SysExModel.Push(ResetUmp(old(State())), SYS_EX_START).(umpActive := true)
    {
      ResetUmpMessage();
      Push(SYS_EX_START);
      umpActive := true;
    }

    method TakePayload(u: Ump, size: nat)
      requires Shape() && Ready(State()) && size <= 6 && counter + size <= MAX_MESSAGE_SIZE
      modifies this`counter, buffer
      ensures State() == Taken(old(State()), u, size)
    {
      hide Lanes;
      PushAll(Lanes(u, size));
    }

    method EndMessage()
      requires Shape() && Ready(State()) && counter < MAX_MESSAGE_SIZE && Sent()
      modifies this, buffer, handler
      ensures Sent() && State() == Ended(old(State()), handler.behaviour)
    {
      hide SysExModel.HandleRequest, Sent;
      Push(SYS_EX_END);
      umpActive := false;
      HandleRequest();
      ResetUmpMessage();
    }

    static lemma PacketCases(c: Conf, u: Ump, h: Handler)
      requires Ready(c)
      ensures !IsSysEx7Packet(u) ==> SysExModel.HandlePacket(c, u, h) == ResetUmp(c)
      ensures IsSysEx7Packet(u) ==>
                && SysExStatusOf(u).Some? && PayloadSize(u) <= 6
                && var status := SysExStatusOf(u).value;
                   var size := SizeOf(PayloadSize(u));
                   var d := Begun(c, status);
                   SysExModel.HandlePacket(c, u, h) ==
                   if !StartsMessage(status) && !c.umpActive then c
                   else if d.counter + size + (if EndsMessage(status) then 1 else 0) > MAX_MESSAGE_SIZE then ResetUmp(d)
                   else if !EndsMessage(status) then Taken(d, u, size) else Ended(Taken(d, u, size), h)
    {
      hide Taken, Ended, Begun, ResetUmp, StartsMessage, EndsMessage;
      if IsSysEx7Packet(u) {
        PacketHasStatus(u);
      }
    }

    static lemma BegunIs(c: Conf, status: SysExStatus)
      requires Ready(c)
      ensures Ready(ResetUmp(c))
      ensures Begun(c, status) ==
              if StartsMessage(status) then SysExModel.Push(ResetUmp(c), SYS_EX_START).(umpActive := true) else c
    {
      hide StartsMessage, SysExModel.Push;
    }

    /** `handle_packet`: messages are reassembled in the buffer, and handled when they end. */
    method HandlePacket(u: Ump)
      requires Valid()
      modifies this, buffer, handler
      ensures Valid() && State() == SysExModel.HandlePacket(old(State()), u, handler.behaviour)
    {
      hide Taken, Ended, IsSysEx7Packet, StartsMessage, EndsMessage, SysExStatusOf, PayloadSize, Sent, ResetUmp, Begun,
           SysExModel.HandlePacket, SysExModel.Push;
      PacketCases(State(), u, handler.behaviour);
      if !IsSysEx7Packet(u) {
        ResetUmpMessage();
        return;
      }
      PacketHasStatus(u);
      BegunIs(State(), SysExStatusOf(u).value);
      var status := SysExStatusOf(u).value;
      var size := SizeOf(PayloadSize(u));
      if StartsMessage(status) {
        BeginMessage();
      } else if !umpActive {
        return;
      }
      assert State() == Begun(old(State()), status);
      var requiredSize := counter + size + (if EndsMessage(status) then 1 else 0);
      if requiredSize > MAX_MESSAGE_SIZE {
        ResetUmpMessage();
        return;
      }
      TakePayload(u, size);
      if EndsMessage(status) {
        EndMessage();
      }
    }

    // ---------------------------------------------------------------- messages of the device's own

    /**
     `send_custom_message`, for as many values as the buffer has room for.  It uses the buffer in which a
     message may be arriving, and leaves `umpActive` as it is.
     */
    method SendCustomMessage(values: seq<bv16>, ack: bool)
      requires Valid() && |values| <= 72
      modifies this`counter, this`frames, buffer, handler`packets
      ensures Valid() && umpActive == old(umpActive) && handler.log == old(handler.log)
      ensures
        frames == old(frames) + [[0xF0, id.id1, id.id2, id.id3, if ack then 1 else 0, 0] + LowBytes(values) + [0xF7]]
    {
      hide LowBytes, SysExModel.SendResponse, Sent;
      var head := [SYS_EX_START, id.id1, id.id2, id.id3, if ack then ACK else REQUEST, 0];
      var message := head + LowBytes(values);
      ghost var before := buffer[..];
      counter := 0;
      PushAll(message);
      assert buffer[..counter] == message;
      ghost var built := State();
      SendResponse();
      SentWhole(built, message);
    }

    // ---------------------------------------------------------------- set-up

    method Reset()
      requires Valid()
      modifies this
      ensures Valid() && !enabled && !ignoreErrors && !umpActive && counter == 0
      ensures layout == [] && customRequests == [] && frames == old(frames)
    {
      enabled := false;
      ignoreErrors := false;
      decoded := Request(WISH_GET, AMOUNT_SINGLE, 0, 0, 0, 0, 0);
      counter := 0;
      layout := [];
      customRequests := [];
      ResetUmpMessage();
    }

    /** A new layout closes the session; an empty one is refused, and closes it all the same. */
    method SetLayout(blocks: Layout) returns (ok: bool)
      requires Valid()
      modifies this`enabled, this`layout
      ensures Valid() && !enabled && ok == (blocks != []) && layout == if ok then blocks else old(layout)
    {
      enabled := false;
      if blocks != [] {
        layout := blocks;
        return true;
      }
      return false;
    }

    /** Identifiers of built-in requests are refused, and then no custom requests are left. */
    method SetupCustomRequests(requests: seq<CustomRequest>) returns (ok: bool)
      requires Valid()
      modifies this`customRequests
      ensures Valid()
      ensures ok <==> requests != [] && forall i :: 0 <= i < |requests| ==> requests[i].id >= 4
      ensures customRequests == if ok then requests else if requests == [] then old(customRequests) else []
    {
      if requests != [] {
        customRequests := requests;
        for i := 0 to |customRequests|
          invariant customRequests == requests && Valid()
          invariant forall k :: 0 <= k < i ==> requests[k].id >= SPECIAL_COUNT
        {
          if customRequests[i].id < SPECIAL_COUNT {
            customRequests := [];
            return false;
          }
        }
        return true;
      }
      return false;
    }

    method CloseConnection()
      requires Valid()
      modifies this`enabled
      ensures Valid() && !enabled
    {
      enabled := false;
    }

    method SetUserErrorIgnoreMode(state: bool)
      requires Valid()
      modifies this`ignoreErrors
      ensures Valid() && ignoreErrors == state
    {
      ignoreErrors := state;
    }
  }

  function LowByteOf(v: bv16): bv8 {
    (v & 0xFF) as bv8
  }

  /** Values as they are put into a byte buffer. */
  function LowBytes(values: seq<bv16>): (r: seq<bv8>)
    ensures |r| == |values| && forall i :: 0 <= i < |r| ==> r[i] == (values[i] & 0xFF) as bv8
  {
    seq(|values|, i requires 0 <= i < |values| => LowByteOf(values[i]))
  }

  lemma SentWhole(c: Conf, message: seq<bv8>)
    requires Open(c) && c.counter == |message| && 1 <= |message| && message[0] == SYS_EX_START
    requires c.buffer[..c.counter] == message
    ensures SysExModel.SendResponse(c).frames == c.frames + [message + [SYS_EX_END]]
  {
    var r := SysExModel.Push(c, SYS_EX_END);
    assert r.buffer[..r.counter] == c.buffer[..c.counter] + [SYS_EX_END];
    assert c.buffer[0] == c.buffer[..c.counter][0];
  }

  lemma FinalAckIgnoresPart(c: Conf, q: Request, r: Request)
    requires |c.buffer| == MAX_MESSAGE_SIZE && r.(part := 0) == q.(part := 0)
    ensures FinalAck(c, q) == FinalAck(c, r)
  {
    hide SysExModel.SendResponse;
  }

  lemma RoomForOne(c: Conf, n: int)
    ensures n >= 1 && HasRoom(c, n) ==> HasRoom(c, 1)
  {
  }

  lemma LessRoom(c: Conf, d: Conf, n: int)
    ensures HasRoom(c, n) && d.counter <= c.counter + BYTES_PER_VALUE ==> HasRoom(d, n - 1)
  {
  }
}
