/** What SysExConf never does, whatever packets arrive and however the data handler behaves. */
module SysExSafety {
  import opened Prelude
  import opened MidiUmp
  import opened SysExModel

  /**
   A call the data handler may see: values are read and written only while the session is open, inside the
   layout and, when written, inside the section's range; custom requests only as they were registered.
   */
  ghost predicate EventOk(c: Conf, e: Event) {
    match e.call
    case Get(b, s, i) => e.open && HasSection(c.layout, b, s) && i < c.layout[b][s].count
    case Set(b, s, i, v) =>
      e.open && HasSection(c.layout, b, s) && i < c.layout[b][s].count && NewValueOk(c.layout[b][s], v)
    case Custom(id) =>
      exists k :: 0 <= k < |c.customRequests| && c.customRequests[k].id == id &&
                  (e.open || !c.customRequests[k].connOpenCheck)
  }

  /** A frame that fits the buffer with both its ends. */
  predicate FrameOk(f: seq<bv8>) {
    2 <= |f| <= MAX_MESSAGE_SIZE && f[0] == SYS_EX_START && f[|f| - 1] == SYS_EX_END
  }

  /** From `c` to `r` only allowed calls were made and only well-formed frames sent. */
  ghost predicate Extends(c: Conf, r: Conf) {
    && r.layout == c.layout && r.customRequests == c.customRequests && r.id == c.id && r.ignoreErrors == c.ignoreErrors
    && c.log <= r.log && c.frames <= r.frames
    && (forall k :: |c.log| <= k < |r.log| ==> EventOk(c, r.log[k]))
    && (forall k :: |c.frames| <= k < |r.frames| ==> FrameOk(r.frames[k]))
  }

  lemma ExtendsTwice(a: Conf, b: Conf, c: Conf)
    requires Extends(a, b) && Extends(b, c)
    ensures Extends(a, c)
  {
    hide FrameOk;
    forall k | |a.log| <= k < |c.log| ensures EventOk(a, c.log[k]) {
      if k < |b.log| {
        assert c.log[k] == b.log[k];
      } else {
        assert EventOk(b, c.log[k]);
      }
    }
    forall k | |a.frames| <= k < |c.frames| ensures FrameOk(c.frames[k]) {
      if k < |b.frames| {
        assert c.frames[k] == b.frames[k];
      }
    }
  }

  /** Neither calls nor frames. */
  lemma Silent(c: Conf, r: Conf)
    requires r.layout == c.layout && r.customRequests == c.customRequests && r.id == c.id
    requires r.ignoreErrors == c.ignoreErrors && r.log == c.log && r.frames == c.frames
    ensures Extends(c, r)
  {
  }

  lemma CallExtends(c: Conf, call: Call)
    requires EventOk(c, Event(call, c.enabled))
    ensures Extends(c, Called(c, call))
  {
  }

  lemma SendExtends(c: Conf)
    requires Open(c)
    ensures Extends(c, SendResponse(c)) && SendResponse(c).enabled == c.enabled
  {
    var r := SendResponse(c);
    if |r.frames| > |c.frames| {
      assert FrameOk(r.frames[|c.frames|]);
    }
  }

  lemma GetExtends(c: Conf, q: Request, i: nat, h: Handler)
    requires Open(c) && HasSection(c.layout, q.block, q.section) && HasRoom(c, 1) && c.enabled
    requires q.amount != AMOUNT_SINGLE ==> i < SectionOf(c, q).count
    ensures Extends(c, GetStep(c, q, i, h).0) && GetStep(c, q, i, h).0.enabled
  {
    hide Extends, EventOk, SplitHigh, SplitLow;
    var index := if q.amount == AMOUNT_SINGLE then q.index else i;
    var call := Get(q.block, q.section, index);
    var r := GetStep(c, q, i, h).0;
    if q.amount == AMOUNT_SINGLE && q.index >= SectionOf(c, q).count {
      Silent(c, r);
    } else {
      CallExtends(c, call);
      Silent(Called(c, call), r);
      ExtendsTwice(c, Called(c, call), r);
    }
  }

  lemma SetExtends(c: Conf, q: Request, i: nat, start: nat, h: Handler)
    requires Open(c) && HasSection(c.layout, q.block, q.section) && start <= i < start + PARAMS_PER_MESSAGE && c.enabled
    requires q.amount != AMOUNT_SINGLE ==> i < SectionOf(c, q).count
    ensures Extends(c, SetStep(c, q, i, start, h).0) && SetStep(c, q, i, start, h).0.enabled
  {
    hide Extends, EventOk, Merge, NewValueOk;
    var single := q.amount == AMOUNT_SINGLE;
    var index := if single then q.index else i;
    var value := if single then q.newValue else Merge(c.buffer[ValueAt(i, start)], c.buffer[ValueAt(i, start) + 1]);
    var call := Set(q.block, q.section, index, value);
    var r := SetStep(c, q, i, start, h).0;
    if index >= SectionOf(c, q).count || !NewValueOk(SectionOf(c, q), value) {
      Silent(c, r);
    } else {
      CallExtends(c, call);
      Silent(Called(c, call), r);
      ExtendsTwice(c, Called(c, call), r);
    }
  }

  lemma {:induction false} ValuesExtend(c: Conf, q: Request, i: nat, start: nat, end: nat, h: Handler)
    requires Open(c) && HasSection(c.layout, q.block, q.section) && c.enabled
    requires start <= i && end <= start + PARAMS_PER_MESSAGE
    requires q.wish == WISH_GET ==> HasRoom(c, start + PARAMS_PER_MESSAGE - i)
    requires q.amount != AMOUNT_SINGLE ==> end <= SectionOf(c, q).count
    ensures Extends(c, Values(c, q, i, start, end, h).0) && Values(c, q, i, start, end, h).0.enabled
    decreases end - i
  {
    hide Extends, GetStep, SetStep;
    if i >= end {
      Silent(c, c);
    } else {
      var (d, ok) := if q.wish == WISH_GET then GetStep(c, q, i, h) else SetStep(c, q, i, start, h);
      if q.wish == WISH_GET {
        GetExtends(c, q, i, h);
      } else {
        SetExtends(c, q, i, start, h);
      }
      if ok {
        ValuesExtend(d, q, i + 1, start, end, h);
        ExtendsTwice(c, d, Values(d, q, i + 1, start, end, h).0);
      }
    }
  }

  lemma PartExtends(c: Conf, q: Request, j: nat, allParts: bool, local: nat, h: Handler)
    requires |c.buffer| == MAX_MESSAGE_SIZE && HasSection(c.layout, q.block, q.section) && local < MAX_MESSAGE_SIZE
    requires q.wish == WISH_GET ==> local < STD_REQ_MIN_MSG_SIZE
    requires c.enabled && (q.amount == AMOUNT_SINGLE || q.amount == AMOUNT_ALL)
    ensures
      Extends(c, PartMessage(c, q, j, allParts, local, h).0) && PartMessage(c, q, j, allParts, local, h).0.enabled
  {
    hide Extends, Values, SendResponse, Byte8;
    var d := c.(counter := local, buffer := if allParts then c.buffer[PART_BYTE := Byte8(j)] else c.buffer);
    var p := PartRequest(q, j, allParts);
    var (e, fine) := Values(d, p, FirstIndex(p), FirstIndex(p), EndIndex(SectionOf(c, p), p), h);
    Silent(c, d);
    ValuesExtend(d, p, FirstIndex(p), FirstIndex(p), EndIndex(SectionOf(c, p), p), h);
    ExtendsTwice(c, d, e);
    if fine {
      SendExtends(e);
      ExtendsTwice(c, e, SendResponse(e));
    }
  }

  lemma {:induction false} PartsExtend(
      c: Conf, q: Request, j: nat, parts: nat, allParts: bool, local: nat, h: Handler)
    requires |c.buffer| == MAX_MESSAGE_SIZE && HasSection(c.layout, q.block, q.section) && local < MAX_MESSAGE_SIZE
    requires q.wish == WISH_GET ==> local < STD_REQ_MIN_MSG_SIZE
    requires c.enabled && (q.amount == AMOUNT_SINGLE || q.amount == AMOUNT_ALL)
    ensures
      && Extends(c, PartLoop(c, q, j, parts, allParts, local, h).0)
      && PartLoop(c, q, j, parts, allParts, local, h).0.enabled
    decreases parts - j
  {
    hide Extends, PartMessage;
    if j >= parts {
      Silent(c, c);
    } else {
      PartExtends(c, q, j, allParts, local, h);
      var (d, sent) := PartMessage(c, q, j, allParts, local, h);
      if sent {
        PartsExtend(d, PartRequest(q, j, allParts), j + 1, parts, allParts, local, h);
        ExtendsTwice(c, d, PartLoop(d, PartRequest(q, j, allParts), j + 1, parts, allParts, local, h).0);
      }
    }
  }

  lemma StandardExtends(c: Conf, size: nat, h: Handler)
    requires Open(c) && size == c.counter + 1
    ensures Extends(c, StandardRequest(c, size, h))
  {
    hide Extends, SendResponse, PartLoop, FinalAck, ProcessStandard, Decode;
    var (d, q) := Decode(c, size);
    DecodeFacts(c, size);
    Silent(c, d);
    if q.None? {
      SendExtends(d);
      ExtendsTwice(c, d, SendResponse(d));
    } else {
      var (e, ok) := ProcessStandard(d, q.value, size, h);
      ProcessExtends(d, q.value, size, h);
      ExtendsTwice(c, d, e);
      if !ok {
        SendExtends(e);
        ExtendsTwice(c, e, SendResponse(e));
      }
    }
  }

  /** Decoding changes the status byte only, and accepts nothing while the session is closed. */
  lemma DecodeFacts(c: Conf, size: nat)
    requires Open(c) && size <= MAX_MESSAGE_SIZE
    ensures
      var (d, q) := Decode(c, size);
      && d.customRequests == c.customRequests && d.id == c.id && d.ignoreErrors == c.ignoreErrors
      && d.log == c.log && d.frames == c.frames && d.enabled == c.enabled
      && (q.Some? ==> c.enabled && (q.value.amount == AMOUNT_SINGLE || q.value.amount == AMOUNT_ALL))
  {
    hide Refusal, Fields, WithIndex;
  }

  lemma ProcessExtends(c: Conf, q: Request, size: nat, h: Handler)
    requires Open(c) && HasSection(c.layout, q.block, q.section) && c.enabled
    requires size == c.counter + 1 && (q.wish == WISH_SET || size == STD_REQ_MIN_MSG_SIZE) && q.wish <= WISH_BACKUP
    requires q.amount == AMOUNT_SINGLE || q.amount == AMOUNT_ALL
    ensures Extends(c, ProcessStandard(c, q, size, h).0)
  {
    hide Extends, SendResponse, PartLoop, Parts;
    var backup := q.wish == WISH_BACKUP;
    var allParts :=
      (backup || q.wish == WISH_GET) && (q.part == PART_ALL_MESSAGES || q.part == PART_ALL_MESSAGES_WITH_ACK);
    var parts := if allParts then Parts(SectionOf(c, q)) else 1;
    var d := if backup then c.(buffer := c.buffer[STATUS_BYTE := REQUEST][WISH_BYTE := WISH_SET]) else c;
    var p := if backup then q.(wish := WISH_GET) else q;
    var local := if backup then size - 1 - 2 * BYTES_PER_VALUE else c.counter;
    Silent(c, d);
    PartsExtend(d, p, 0, parts, allParts, local, h);
    var (e, ok) := PartLoop(d, p, 0, parts, allParts, local, h);
    ExtendsTwice(c, d, e);
    if ok && allParts && q.part == PART_ALL_MESSAGES_WITH_ACK {
      FinalAckExtends(e, p);
      ExtendsTwice(c, e, FinalAck(e, p));
    }
  }

  lemma FinalAckExtends(c: Conf, q: Request)
    requires |c.buffer| == MAX_MESSAGE_SIZE
    ensures Extends(c, FinalAck(c, q))
  {
    hide Extends, SendResponse, Byte8;
    var head :=
      [SYS_EX_START, c.id.id1, c.id.id2, c.id.id3, ACK, Byte8(PART_ALL_MESSAGES_WITH_ACK), q.wish, q.amount,
       Byte8(q.block), Byte8(q.section), 0, 0, 0, 0];
    var d := c.(buffer := head + c.buffer[14..], counter := 14);
    Silent(c, d);
    SendExtends(d);
    ExtendsTwice(c, d, SendResponse(d));
  }

  // ---------------------------------------------------------------- special requests

  lemma {:induction false} AppendSilent(c: Conf, values: seq<bv16>)
    requires Open(c)
    ensures
      var r := Append(c, values).0;
      && r.customRequests == c.customRequests && r.id == c.id && r.ignoreErrors == c.ignoreErrors
      && r.log == c.log && r.frames == c.frames
    decreases |values|
  {
    hide SplitHigh, SplitLow;
    if values != [] {
      if c.counter + BYTES_PER_VALUE >= MAX_MESSAGE_SIZE {
        AppendSilent(c, values[1..]);
      } else {
        var v := values[0] & 0x3FFF;
        AppendSilent(Push(Push(c, SplitHigh(v)), SplitLow(v)), values[1..]);
      }
    }
  }

  lemma {:induction false} FoundCustom(requests: seq<CustomRequest>, id: nat)
    ensures
      var r := FindCustom(requests, id);
      r.Some? ==> r.value.id == id && exists k :: 0 <= k < |requests| && requests[k] == r.value
    decreases |requests|
  {
    if requests != [] {
      if requests[0].id == id {
        assert requests[0] == FindCustom(requests, id).value;
      } else {
        FoundCustom(requests[1..], id);
        var r := FindCustom(requests[1..], id);
        if r.Some? {
          var k :| 0 <= k < |requests[1..]| && requests[1..][k] == r.value;
          assert requests[k + 1] == r.value;
        }
      }
    }
  }

  lemma CustomExtends(c: Conf, request: CustomRequest, h: Handler)
    requires Open(c) && (c.enabled || !request.connOpenCheck)
    requires exists k :: 0 <= k < |c.customRequests| && c.customRequests[k] == request
    ensures Extends(c, CustomReply(c, request.id, h))
  {
    hide Extends, Append;
    var a := SetStatus(c, ACK);
    var d := Called(a, Custom(request.id));
    var e := Append(d, h(d.log).appended).0;
    Silent(c, a);
    CallExtends(a, Custom(request.id));
    ExtendsTwice(c, a, d);
    AppendSilent(d, h(d.log).appended);
    Silent(d, CustomReply(c, request.id, h));
    ExtendsTwice(c, d, CustomReply(c, request.id, h));
  }

  lemma SpecialExtends(c: Conf, h: Handler)
    requires Open(c) && c.counter + 2 < MAX_MESSAGE_SIZE
    ensures Extends(c, ProcessSpecial(c, h))
  {
    hide Extends, CustomReply, Byte8, FindCustom, Num;
    var wish := c.buffer[WISH_BYTE];
    var found := FindCustom(c.customRequests, Num(wish));
    FoundCustom(c.customRequests, Num(wish));
    if found.Some? && (c.enabled || !found.value.connOpenCheck) {
      CustomExtends(c, found.value, h);
    }
    var r := ProcessSpecial(c, h);
    if r.log == c.log && r.frames == c.frames && r.id == c.id && r.ignoreErrors == c.ignoreErrors &&
       r.layout == c.layout && r.customRequests == c.customRequests {
      Silent(c, r);
    }
  }

  // ---------------------------------------------------------------- packets

  lemma RequestExtends(c: Conf, h: Handler)
    requires Ready(c)
    ensures Extends(c, HandleRequest(c, h))
  {
    hide Extends, SendResponse, ProcessSpecial, StandardRequest, SetStatus;
    var size := c.counter;
    Silent(c, c);
    if !(c.layout == [] || size < SPECIAL_REQ_MSG_SIZE || c.buffer[0] != SYS_EX_START ||
         c.buffer[size - 1] != SYS_EX_END || size > MAX_MESSAGE_SIZE) {
      var d := c.(counter := size - 1);
      Silent(c, d);
      if IdMatches(d) {
        if d.buffer[STATUS_BYTE] != REQUEST {
          StatusSilent(d, ERROR_STATUS);
          SendExtends(SetStatus(d, ERROR_STATUS));
          ExtendsTwice(c, d, SetStatus(d, ERROR_STATUS));
          ExtendsTwice(c, SetStatus(d, ERROR_STATUS), SendResponse(SetStatus(d, ERROR_STATUS)));
        } else if size == SPECIAL_REQ_MSG_SIZE {
          SpecialExtends(d, h);
          ExtendsTwice(c, d, ProcessSpecial(d, h));
          SendExtends(ProcessSpecial(d, h));
          ExtendsTwice(c, ProcessSpecial(d, h), SendResponse(ProcessSpecial(d, h)));
        } else {
          StandardExtends(d, size, h);
          ExtendsTwice(c, d, StandardRequest(d, size, h));
        }
      }
    }
  }

  lemma StatusSilent(c: Conf, status: bv8)
    requires Open(c)
    ensures Extends(c, SetStatus(c, status)) && Open(SetStatus(c, status))
  {
    Silent(c, SetStatus(c, status));
  }

  lemma PacketExtends(c: Conf, u: Ump, h: Handler)
    requires Ready(c)
    ensures Extends(c, HandlePacket(c, u, h))
  {
    hide Extends, Ended, IsSysEx7Packet, StartsMessage, EndsMessage, Lanes, SysExStatusOf;
    Silent(c, c);
    Silent(c, ResetUmp(c));
    if IsSysEx7Packet(u) {
      PacketHasStatus(u);
      var status := SysExStatusOf(u).value;
      var size := SizeOf(PayloadSize(u));
      var d := Begun(c, status);
      Silent(c, ResetUmp(d));
      if d.counter + size <= MAX_MESSAGE_SIZE {
        var e := Taken(d, u, size);
        Silent(c, e);
        if e.counter < MAX_MESSAGE_SIZE {
          EndExtends(e, h);
          ExtendsTwice(c, e, Ended(e, h));
        }
      }
    }
  }

  lemma EndExtends(c: Conf, h: Handler)
    requires Ready(c) && c.counter < MAX_MESSAGE_SIZE
    ensures Extends(c, Ended(c, h))
  {
    hide Extends, HandleRequest;
    var d := Push(c, SYS_EX_END).(umpActive := false);
    Silent(c, d);
    RequestExtends(d, h);
    ExtendsTwice(c, d, HandleRequest(d, h));
    Silent(HandleRequest(d, h), Ended(c, h));
    ExtendsTwice(c, HandleRequest(d, h), Ended(c, h));
  }

  /**
   Session and buffer safety: over any sequence of packets, for any data handler, every frame sent fits the
   buffer with its end byte, and every call of the handler is an allowed one.
   */
  lemma {:induction false} PacketsSafe(c: Conf, us: seq<Ump>, h: Handler)
    requires Ready(c)
    ensures Extends(c, HandlePackets(c, us, h))
    decreases |us|
  {
    hide Extends, HandlePacket;
    if us == [] {
      Silent(c, c);
    } else {
      var d := HandlePacket(c, us[0], h);
      PacketExtends(c, us[0], h);
      PacketsSafe(d, us[1..], h);
      ExtendsTwice(c, d, HandlePackets(d, us[1..], h));
    }
  }
}
