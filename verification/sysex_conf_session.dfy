/**
 The session of SysExConf: what opens and closes it, what is refused while it is closed, and the special and
 refused requests byte by byte.
 */
module SysExSession {
  import opened Prelude
  import opened MidiUmp
  import opened SysExModel
  import opened SysExSafety
  import opened SysExBackup
  import opened SysExRequests

  // ---------------------------------------------------------------- which requests are answered

  /** The message carries this identifier. */
  predicate Mine(id: Id, m: seq<bv8>)
    requires |m| >= 8
  {
    m[1] == id.id1 && m[2] == id.id2 && m[3] == id.id3
  }

  /** Where a received message goes. */
  lemma Dispatched(c: Conf, m: seq<bv8>, h: Handler)
    requires Received(c, m)
    ensures |c.buffer| == 79 && |m| <= 79
    ensures
      var r := HandleRequest(c, h);
      if c.layout == [] || !Framed(m) then r == c
      else
        var d := c.(counter := |m| - 1);
        if !Mine(c.id, m) then r == d
        else if m[4] != 0 then r == SendResponse(SetStatus(d, 0x02))
        else if |m| == 8 then r == SendResponse(ProcessSpecial(d, h))
        else r == StandardRequest(d, |m|, h)
  {
    hide StandardRequest, ProcessSpecial, SendResponse, SetStatus;
    AllBytes(c, m);
  }

  /** Without a layout, for another device or in no frame: no answer and no call. */
  lemma Unanswered(c: Conf, m: seq<bv8>, h: Handler)
    requires Received(c, m) && (c.layout == [] || !Framed(m) || !Mine(c.id, m))
    ensures
      var r := HandleRequest(c, h);
      SameSession(c, r) && r.log == c.log && r.frames == c.frames
  {
    hide HandleRequest, Received;
    Dispatched(c, m, h);
  }

  /** A message that is no request is answered with that status. */
  lemma NoRequest(c: Conf, m: seq<bv8>, h: Handler)
    requires Received(c, m) && c.layout != [] && Framed(m) && Mine(c.id, m) && m[4] != 0
    ensures
      var r := HandleRequest(c, h);
      SameSession(c, r) && r.log == c.log && r.frames == c.frames + [m[4 := 0x02]]
  {
    hide HandleRequest, Received, SetStatus, SendResponse;
    Dispatched(c, m, h);
    StatusSent(c, m, 0x02);
  }

  // ---------------------------------------------------------------- special requests

  /** A special request: the wish and nothing behind it. */
  function SpecialRequest(id: Id, part: bv8, wish: bv8): (m: seq<bv8>)
    ensures |m| == 8 && Framed(m) && Mine(id, m) && m[4] == 0 && m[6] == wish
  {
    [0xF0, id.id1, id.id2, id.id3, 0, part, wish, 0xF7]
  }

  lemma SpecialWith(id: Id, part: bv8, wish: bv8, status: bv8, more: seq<bv8>)
    ensures SpecialRequest(id, part, wish)[..7][4 := status] + more + [0xF7] ==
            [0xF0, id.id1, id.id2, id.id3, status, part, wish] + more + [0xF7]
  {
    assert SpecialRequest(id, part, wish)[..7][4 := status] ==
           [0xF0, id.id1, id.id2, id.id3, status, part, wish];
  }

  lemma SpecialHandled(c: Conf, part: bv8, wish: bv8, h: Handler)
    requires Received(c, SpecialRequest(c.id, part, wish)) && c.layout != []
    ensures |c.buffer| == 79 && c.counter == 8 && c.buffer[6] == wish
    ensures HandleRequest(c, h) == SendResponse(ProcessSpecial(c.(counter := 7), h))
  {
    hide HandleRequest, Received, SpecialRequest, SendResponse, ProcessSpecial;
    var m := SpecialRequest(c.id, part, wish);
    Dispatched(c, m, h);
    ReceivedLength(c, m);
    MessageByte(c, m, 6);
  }

  /** A status and nothing more. */
  lemma SpecialStatus(c: Conf, part: bv8, wish: bv8, status: bv8)
    requires Received(c, SpecialRequest(c.id, part, wish)) && status < 0x80
    ensures |c.buffer| == 79 && c.counter == 8
    ensures
      var r := SendResponse(SetStatus(c.(counter := 7), status));
      r == c.(buffer := r.buffer, frames := c.frames + [[0xF0, c.id.id1, c.id.id2, c.id.id3, status, part, wish, 0xF7]])
  {
    hide Received, SendResponse, SetStatus, SpecialRequest;
    var m := SpecialRequest(c.id, part, wish);
    ReceivedLength(c, m);
    StatusSent(c, m, status);
    SpecialWithStatus(c.id, part, wish, status);
  }

  lemma SpecialWithStatus(id: Id, part: bv8, wish: bv8, status: bv8)
    ensures SpecialRequest(id, part, wish)[4 := status] ==
            [0xF0, id.id1, id.id2, id.id3, status, part, wish, 0xF7]
  {
  }

  /** Close: the session is closed afterwards, and it is an error if it was closed before. */
  lemma CloseRequest(c: Conf, part: bv8, h: Handler)
    requires Received(c, SpecialRequest(c.id, part, 0)) && c.layout != []
    ensures
      var r := HandleRequest(c, h);
      && r.enabled == false && SameSession(c.(enabled := false), r) && r.log == c.log
      && r.frames == c.frames + [[0xF0, c.id.id1, c.id.id2, c.id.id3, if c.enabled then 1 else 3, part, 0, 0xF7]]
  {
    hide HandleRequest, Received, SpecialRequest, SendResponse, SetStatus;
    SpecialHandled(c, part, 0, h);
    var d := c.(enabled := false);
    SameMessage(c, d, SpecialRequest(c.id, part, 0));
    SpecialStatus(d, part, 0, if c.enabled then 1 else 3);
  }

  lemma SameMessage(c: Conf, d: Conf, m: seq<bv8>)
    requires Received(c, m) && d.buffer == c.buffer && d.counter == c.counter && d.umpActive == c.umpActive
    ensures Received(d, m)
  {
  }

  /** Open: the session is open afterwards, whatever it was. */
  lemma OpenRequest(c: Conf, part: bv8, h: Handler)
    requires Received(c, SpecialRequest(c.id, part, 1)) && c.layout != []
    ensures
      var r := HandleRequest(c, h);
      && r.enabled == true && SameSession(c.(enabled := true), r) && r.log == c.log
      && r.frames == c.frames + [[0xF0, c.id.id1, c.id.id2, c.id.id3, 1, part, 1, 0xF7]]
  {
    hide HandleRequest, Received, SpecialRequest, SendResponse, SetStatus;
    SpecialHandled(c, part, 1, h);
    var d := c.(enabled := true);
    SameMessage(c, d, SpecialRequest(c.id, part, 1));
    SpecialStatus(d, part, 1, 1);
  }

  lemma BytesPerValue()
    ensures Byte8(BYTES_PER_VALUE) == 2
  {
  }

  lemma ParamsPerMessage()
    ensures Byte8(PARAMS_PER_MESSAGE) == 32
  {
    assert PARAMS_PER_MESSAGE % 0x100 == 32;
    assert 32 as bv8 == 0x20;
  }

  /** Bytes per value, parameters per message: 2 and 32, told in an open session only. */
  lemma ConstantRequest(c: Conf, part: bv8, wish: bv8, h: Handler)
    requires Received(c, SpecialRequest(c.id, part, wish)) && c.layout != [] && (wish == 2 || wish == 3)
    ensures
      var r := HandleRequest(c, h);
      && SameSession(c, r) && r.log == c.log
      && r.frames == c.frames + [
           if !c.enabled then [0xF0, c.id.id1, c.id.id2, c.id.id3, 3, part, wish, 0xF7]
           else [0xF0, c.id.id1, c.id.id2, c.id.id3, 1, part, wish] + [0, if wish == 2 then 2 else 32] + [0xF7]]
  {
    hide HandleRequest, Received, SpecialRequest, SendResponse, SetStatus, Byte8, Answering;
    var m := SpecialRequest(c.id, part, wish);
    SpecialHandled(c, part, wish, h);
    BytesPerValue();
    ParamsPerMessage();
    var d := c.(counter := 7);
    if c.enabled {
      var n: bv8 := if wish == 2 then 2 else 32;
      AnswerBegins(c, m, 1);
      StatusKeeps(d, 1);
      AnswerWithTwo(m, 1, [], SetStatus(d, 1), 0, n);
      assert [] + [0, n] == [0, n];
      AnswerGoesOut(m, 1, [0, n], Push(Push(SetStatus(d, 1), 0), n));
      SpecialWith(c.id, part, wish, 1, [0, n]);
    } else {
      SpecialStatus(c, part, wish, 3);
    }
  }

  // ---------------------------------------------------------------- custom requests

  /** Custom request `k` is the first with this identifier. */
  predicate FirstCustom(requests: seq<CustomRequest>, id: nat, k: nat) {
    k < |requests| && requests[k].id == id && forall j :: 0 <= j < k ==> requests[j].id != id
  }

  lemma {:induction false} FoundFirst(requests: seq<CustomRequest>, id: nat, k: nat)
    requires FirstCustom(requests, id, k)
    ensures FindCustom(requests, id) == Some(requests[k])
    decreases k
  {
    if k > 0 {
      FoundFirst(requests[1..], id, k - 1);
    }
  }

  lemma {:induction false} FoundNone(requests: seq<CustomRequest>, id: nat)
    requires forall j :: 0 <= j < |requests| ==> requests[j].id != id
    ensures FindCustom(requests, id) == None
    decreases |requests|
  {
    if requests != [] {
      FoundNone(requests[1..], id);
    }
  }

  /** Values as data bytes, two for each, of which the first has the higher bits. */
  function Digits(vs: seq<bv16>): (r: seq<bv8>)
    ensures |r| == 2 * |vs|
  {
    if vs == [] then [] else [High(vs[0]), Low(vs[0])] + Digits(vs[1..])
  }

  /** How many more values fit in front of the end byte. */
  function Room(counter: nat): (n: nat)
    requires counter <= 78
  {
    (78 - counter) / 2
  }

  function Fitting(vs: seq<bv16>, room: nat): seq<bv16> {
    if |vs| <= room then vs else vs[..room]
  }

  /** One value that fits, appended. */
  lemma AppendOne(m: seq<bv8>, status: bv8, more: seq<bv8>, d: Conf, vs: seq<bv16>)
    requires Answering(m, status, more, d) && vs != [] && d.counter + 2 < 79
    ensures |d.buffer| == 79
    ensures
      var e := Push(Push(d, High(vs[0])), Low(vs[0]));
      && Append(d, vs) == Append(e, vs[1..]) && Answering(m, status, more + [High(vs[0]), Low(vs[0])], e)
  {
    hide SplitHigh, SplitLow, High, Low;
    SplitIs(vs[0]);
    AnswerWithTwo(m, status, more, d, High(vs[0]), Low(vs[0]));
  }

  lemma RoomStep(vs: seq<bv16>, counter: nat)
    requires vs != [] && counter < 79
    ensures counter + 2 >= 79 ==> Room(counter) == 0 && Fitting(vs, 0) == [] && Fitting(vs[1..], 0) == []
    ensures counter + 2 < 79 ==>
              && Room(counter) == Room(counter + 2) + 1
              && Digits(Fitting(vs, Room(counter))) ==
                 [High(vs[0]), Low(vs[0])] + Digits(Fitting(vs[1..], Room(counter + 2)))
  {
    hide High, Low;
    if counter + 2 < 79 {
      var room := Room(counter);
      assert Fitting(vs, room)[0] == vs[0] && Fitting(vs, room)[1..] == Fitting(vs[1..], room - 1);
    }
  }

  /** Appending values to an answer: those that fit are there, and it is known whether one did not. */
  lemma {:induction false} AppendAnswer(m: seq<bv8>, status: bv8, more: seq<bv8>, d: Conf, vs: seq<bv16>)
    requires Answering(m, status, more, d)
    ensures
      var (e, overflowed) := Append(d, vs);
      && Answering(m, status, more + Digits(Fitting(vs, Room(d.counter))), e)
      && overflowed == (|vs| > Room(d.counter))
      && e == d.(buffer := e.buffer, counter := e.counter)
    decreases |vs|
  {
    hide Answering, SplitHigh, SplitLow, High, Low, Room, Fitting, Digits;
    AnswerSize(m, status, more, d);
    if vs == [] {
      NothingFitting(Room(d.counter));
      assert more + [] == more;
    } else {
      RoomStep(vs, d.counter);
      if d.counter + 2 >= 79 {
        AppendAnswer(m, status, more, d, vs[1..]);
      } else {
        AppendOne(m, status, more, d, vs);
        var two := [High(vs[0]), Low(vs[0])];
        var e := Push(Push(d, High(vs[0])), Low(vs[0]));
        AppendAnswer(m, status, more + two, e, vs[1..]);
        var rest := Digits(Fitting(vs[1..], Room(e.counter)));
        assert (more + two) + rest == more + (two + rest);
      }
    }
  }

  lemma NothingFitting(room: nat)
    ensures Fitting([], room) == [] && Digits([]) == []
  {
  }

  lemma AnswerSize(m: seq<bv8>, status: bv8, more: seq<bv8>, d: Conf)
    requires Answering(m, status, more, d)
    ensures Open(d) && d.counter == |m| - 1 + |more| < 79
  {
  }

  /** The status a custom request is answered with. */
  function CustomStatus(reply: Reply): bv8 {
    if |reply.appended| > 35 then 0x0E
    else if reply.status == 0x01 then 0x01
    else if reply.status == 0x00 then 0x02
    else reply.status & 0x7F
  }

  lemma CustomReplied(c: Conf, m: seq<bv8>, id: nat, h: Handler)
    requires Received(c, m) && |m| == 8 && Framed(m)
    ensures
      var d := c.(counter := 7);
      var log := c.log + [Event(Custom(id), c.enabled)];
      var e := CustomReply(d, id, h);
      && e == d.(buffer := e.buffer, counter := e.counter, log := log)
      && Answering(m, CustomStatus(h(log)), Digits(Fitting(h(log).appended, 35)), e)
  {
    hide Answering, SetStatus, Append, Received, Digits, Fitting;
    var d := c.(counter := 7);
    ReceivedLength(c, m);
    AnswerBegins(c, m, 1);
    StatusKeeps(d, 1);
    var f := Called(SetStatus(d, 1), Custom(id));
    SameAnswer(m, 1, [], SetStatus(d, 1), f);
    var reply := h(f.log);
    AppendAnswer(m, 1, [], f, reply.appended);
    var more := Digits(Fitting(reply.appended, 35));
    assert [] + more == more;
    var e := Append(f, reply.appended).0;
    AnotherStatus(m, more, e, ERROR_READ);
    AnotherStatus(m, more, e, ERROR_STATUS);
    AnotherStatus(m, more, e, reply.status);
  }

  lemma AnotherStatus(m: seq<bv8>, more: seq<bv8>, e: Conf, status: bv8)
    requires Answering(m, 1, more, e)
    ensures |e.buffer| == 79 && Answering(m, status & 0x7F, more, SetStatus(e, status))
    ensures SetStatus(e, status) == e.(buffer := SetStatus(e, status).buffer)
    ensures status == 0x0E || status == 0x02 ==> status & 0x7F == status
  {
    AnswerStatus(m, 1, status, more, e);
  }

  /**
   A custom request: the first one registered with the identifier is called, in a closed session only if it does
   not ask for an open one, and the values it appends go out, as many as fit, with a status that tells how it went.
   */
  lemma CustomRequestAnswered(c: Conf, part: bv8, wish: bv8, k: nat, h: Handler)
    requires Received(c, SpecialRequest(c.id, part, wish)) && c.layout != [] && wish > 3
    requires FirstCustom(c.customRequests, wish as nat, k)
    ensures
      var r := HandleRequest(c, h);
      if !c.enabled && c.customRequests[k].connOpenCheck then
        && SameSession(c, r) && r.log == c.log
        && r.frames == c.frames + [[0xF0, c.id.id1, c.id.id2, c.id.id3, 3, part, wish, 0xF7]]
      else
        var log := c.log + [Event(Custom(wish as nat), c.enabled)];
        && SameSession(c, r) && r.log == log
        && r.frames == c.frames + [[0xF0, c.id.id1, c.id.id2, c.id.id3, CustomStatus(h(log)), part, wish] +
                                   Digits(Fitting(h(log).appended, 35)) + [0xF7]]
  {
    hide HandleRequest, Received, SpecialRequest, SendResponse, SetStatus, Answering, CustomStatus, Digits, CustomReply,
         FirstCustom, FindCustom;
    SpecialHandled(c, part, wish, h);
    FoundFirst(c.customRequests, wish as nat, k);
    FirstHas(c.customRequests, wish as nat, k);
    if !c.enabled && c.customRequests[k].connOpenCheck {
      SpecialStatus(c, part, wish, 3);
    } else {
      var m := SpecialRequest(c.id, part, wish);
      var log := c.log + [Event(Custom(wish as nat), c.enabled)];
      CustomReplied(c, m, wish as nat, h);
      var more := Digits(Fitting(h(log).appended, 35));
      AnswerGoesOut(m, CustomStatus(h(log)), more, CustomReply(c.(counter := 7), wish as nat, h));
      SpecialWith(c.id, part, wish, CustomStatus(h(log)), more);
    }
  }

  lemma FirstHas(requests: seq<CustomRequest>, id: nat, k: nat)
    requires FirstCustom(requests, id, k)
    ensures k < |requests| && requests[k].id == id
  {
  }

  /** A wish that is neither built in nor registered is refused. */
  lemma UnknownRequest(c: Conf, part: bv8, wish: bv8, h: Handler)
    requires Received(c, SpecialRequest(c.id, part, wish)) && c.layout != [] && wish > 3
    requires forall j :: 0 <= j < |c.customRequests| ==> c.customRequests[j].id != wish as nat
    ensures
      var r := HandleRequest(c, h);
      && SameSession(c, r) && r.log == c.log
      && r.frames == c.frames + [[0xF0, c.id.id1, c.id.id2, c.id.id3, 4, part, wish, 0xF7]]
  {
    hide HandleRequest, Received, SpecialRequest, SendResponse, SetStatus, FindCustom;
    SpecialHandled(c, part, wish, h);
    FoundNone(c.customRequests, wish as nat);
    SpecialStatus(c, part, wish, 4);
  }

  // ---------------------------------------------------------------- refusals

  /** Messages of at most 32 values that a section needs; the source keeps the number in eight bits. */
  function Messages(count: nat): nat {
    ((count + 31) / 32) % 256
  }

  /** The bytes a standard request must have; the source keeps the number in sixteen bits. */
  function Length(count: nat, wish: bv8, amount: bv8, part: nat): nat {
    if amount == 0 || wish != 1 then 15
    else
      ((if count <= 32 then count else if part + 1 == Messages(count) then count - 32 * (Messages(count) - 1) else 32)
       * 2 + 11) % 0x1_0000
  }

  /** Parts 126 and 127 mean all parts, which can only be read; one parameter has part 0. */
  predicate PartFits(count: nat, wish: bv8, amount: bv8, part: nat) {
    if part == 126 || part == 127 then wish != 1 else if amount == 1 then part < Messages(count) else part == 0
  }

  /** The error status a standard request is refused with, if it is: the first check that fails. */
  function ErrorOf(open: bool, layout: Layout, m: seq<bv8>): Option<bv8>
    requires |m| >= 8
  {
    if |m| < 13 then Some(0x0B)
    else if !open then Some(0x03)
    else
      var part, wish, amount := m[5] as nat, m[6], m[7];
      var b, s := m[8] as nat, m[9] as nat;
      if wish > 2 then Some(0x04)
      else if b >= |layout| then Some(0x06)
      else if s >= |layout[b]| then Some(0x07)
      else if amount > 1 then Some(0x05)
      else if !PartFits(layout[b][s].count, wish, amount, part) then Some(0x08)
      else if |m| != Length(layout[b][s].count, wish, amount, part) then Some(0x0B)
      else None
  }

  lemma MessagesIs(section: Section)
    ensures Parts(section) == Messages(section.count)
  {
  }

  lemma LengthIs(section: Section, q: Request)
    requires q.wish <= 2 && q.amount <= 1
    ensures MessageLength(section, q) == Length(section.count, q.wish, q.amount, q.part)
    ensures PartOk(section, q) <==> PartFits(section.count, q.wish, q.amount, q.part)
  {
    hide Parts, Messages;
    MessagesIs(section);
  }

  /** A request is refused exactly with the error that the bytes call for. */
  lemma RefusalIs(layout: Layout, q: Request, m: seq<bv8>)
    requires |m| >= 13 && q == Request(m[6], m[7], m[8] as nat, m[9] as nat, m[5] as nat, 0, 0)
    ensures Refusal(layout, q, |m|) == ErrorOf(true, layout, m)
  {
    hide MessageLength, Length, PartOk, PartFits;
    if q.wish <= 2 && q.amount <= 1 && HasSection(layout, q.block, q.section) {
      LengthIs(layout[q.block][q.section], q);
    }
  }

  lemma FieldsAre(c: Conf, m: seq<bv8>)
    requires Received(c, m) && |m| >= 13
    ensures |c.buffer| == 79
    ensures Fields(c) == Request(m[6], m[7], m[8] as nat, m[9] as nat, m[5] as nat, 0, 0)
  {
    AllBytes(c, m);
  }

  lemma DecodeError(c: Conf, m: seq<bv8>)
    requires Received(c, m) && |m| > 8
    ensures |c.buffer| == 79 && |m| <= 79
    ensures
      var (d, q) := Decode(c.(counter := |m| - 1), |m|);
      match ErrorOf(c.enabled, c.layout, m)
      case Some(error) => q == None && d == SetStatus(c.(counter := |m| - 1), error) && error < 0x80
      case None => q.Some?
  {
    hide Refusal, Fields, SetStatus, WithIndex, ErrorOf, Received;
    ReceivedLength(c, m);
    ErrorCases(c, m);
    if |m| >= 13 && c.enabled {
      FieldsAre(c, m);
      var q := Request(m[6], m[7], m[8] as nat, m[9] as nat, m[5] as nat, 0, 0);
      RefusalIs(c.layout, q, m);
      assert Fields(c.(counter := |m| - 1)) == q by {
        SameFields(c, c.(counter := |m| - 1));
      }
    }
  }

  lemma SameFields(c: Conf, d: Conf)
    requires |c.buffer| == 79 && d.buffer == c.buffer
    ensures Fields(d) == Fields(c)
  {
  }

  lemma ErrorCases(c: Conf, m: seq<bv8>)
    requires |m| >= 8
    ensures |m| < 13 ==> ErrorOf(c.enabled, c.layout, m) == Some(0x0B)
    ensures |m| >= 13 && !c.enabled ==> ErrorOf(c.enabled, c.layout, m) == Some(0x03)
    ensures ErrorOf(c.enabled, c.layout, m).Some? ==> ErrorOf(c.enabled, c.layout, m).value < 0x80
  {
    hide Length, PartFits;
  }

  /**
   A refused standard request comes back with its error and without a call: a closed session refuses every request
   of a full header with the connection error, whatever is in it.
   */
  lemma RequestRefused(c: Conf, m: seq<bv8>, h: Handler)
    requires Received(c, m) && c.layout != [] && Framed(m) && Mine(c.id, m) && m[4] == 0 && |m| > 8
    requires ErrorOf(c.enabled, c.layout, m).Some?
    ensures
      var r := HandleRequest(c, h);
      && SameSession(c, r) && r.log == c.log
      && r.frames == c.frames + [m[4 := ErrorOf(c.enabled, c.layout, m).value]]
  {
    hide HandleRequest, Received, SendResponse, SetStatus, ErrorOf, Decode;
    Dispatched(c, m, h);
    DecodeError(c, m);
    StatusSent(c, m, ErrorOf(c.enabled, c.layout, m).value);
  }

  /** A request for which there is no error is accepted, and no other. */
  lemma RequestAccepted(c: Conf, m: seq<bv8>)
    requires Received(c, m) && |m| > 8
    ensures |c.buffer| == 79 && |m| <= 79
    ensures ErrorOf(c.enabled, c.layout, m).None? <==> Decode(c.(counter := |m| - 1), |m|).1.Some?
  {
    hide Received, ErrorOf, Decode;
    DecodeError(c, m);
  }

  /**
   The answer to a backup of one parameter cannot be sent back as it is: it lacks the index, and every session that
   is open refuses it for its length, whatever section it names.
   */
  lemma BackupSingleRefused(c: Conf, b: bv8, s: bv8, v1: bv8, v0: bv8, h: Handler)
    requires Received(c, Head(c.id, 0, 0, 1, 0, b, s) + [v1, v0] + [0xF7]) && c.enabled
    requires HasSection(c.layout, b as nat, s as nat)
    ensures
      var r := HandleRequest(c, h);
      r.log == c.log && r.frames == c.frames + [Head(c.id, 0x0B, 0, 1, 0, b, s) + [v1, v0] + [0xF7]]
  {
    hide HandleRequest, Received, Head, ErrorOf;
    var m := Head(c.id, 0, 0, 1, 0, b, s) + [v1, v0] + [0xF7];
    HeadBytes(c.id, 0, 0, 1, 0, b, s);
    ShortSet(c.layout, m, b, s);
    RequestRefused(c, m, h);
    assert Head(c.id, 0, 0, 1, 0, b, s)[4 := 0x0B] == Head(c.id, 0x0B, 0, 1, 0, b, s) by {
      HeadStatus(c.id, 0, 0x0B, 0, 1, 0, b, s);
    }
    assert m[4 := 0x0B] == Head(c.id, 0, 0, 1, 0, b, s)[4 := 0x0B] + [v1, v0] + [0xF7];
  }

  lemma HeadStatus(id: Id, was: bv8, status: bv8, part: bv8, wish: bv8, amount: bv8, b: bv8, s: bv8)
    ensures Head(id, was, part, wish, amount, b, s)[4 := status] == Head(id, status, part, wish, amount, b, s)
  {
  }

  lemma ShortSet(layout: Layout, m: seq<bv8>, b: bv8, s: bv8)
    requires |m| == 13 && m[5] == 0 && m[6] == 1 && m[7] == 0 && m[8] == b && m[9] == s
    requires HasSection(layout, b as nat, s as nat)
    ensures ErrorOf(true, layout, m) == Some(0x0B)
  {
    Zero();
  }

  // ---------------------------------------------------------------- the session over a whole run

  /** The message is the special request with this wish for this device. */
  predicate Asks(id: Id, m: seq<bv8>, wish: bv8) {
    |m| == 8 && m == SpecialRequest(id, m[5], wish)
  }

  /** Whether the session is open after a message. */
  function OpenAfter(id: Id, open: bool, m: seq<bv8>): bool {
    if Asks(id, m, 0) then false else if Asks(id, m, 1) then true else open
  }

  /** Whether the session is open after messages. */
  function OpenAfterAll(id: Id, open: bool, ms: seq<seq<bv8>>): bool
    decreases |ms|
  {
    if ms == [] then open else OpenAfter(id, OpenAfterAll(id, open, ms[..|ms| - 1]), ms[|ms| - 1])
  }

  lemma NotBoth(id: Id, m: seq<bv8>)
    ensures !(Asks(id, m, 0) && Asks(id, m, 1))
  {
  }

  /** The session is open exactly when the last request to open it comes after the last one to close it. */
  lemma {:induction false} OpenIffLast(id: Id, open: bool, ms: seq<seq<bv8>>)
    ensures
      OpenAfterAll(id, open, ms) <==>
      (exists k :: 0 <= k < |ms| && Asks(id, ms[k], 1) && forall j :: k < j < |ms| ==> !Asks(id, ms[j], 0)) ||
      (open && forall j :: 0 <= j < |ms| ==> !Asks(id, ms[j], 0))
    decreases |ms|
  {
    hide Asks;
    if ms != [] {
      var n := |ms| - 1;
      var rest := ms[..n];
      OpenIffLast(id, open, rest);
      NotBoth(id, ms[n]);
      if Asks(id, ms[n], 1) {
      } else if !Asks(id, ms[n], 0) {
        forall k | 0 <= k < n && Asks(id, rest[k], 1) && forall j :: k < j < n ==> !Asks(id, rest[j], 0)
          ensures Asks(id, ms[k], 1) && forall j :: k < j < |ms| ==> !Asks(id, ms[j], 0)
        {
          forall j | k < j < |ms| ensures !Asks(id, ms[j], 0) {
            if j < n {
              assert !Asks(id, rest[j], 0);
            }
          }
        }
        forall k | 0 <= k < |ms| && Asks(id, ms[k], 1) && forall j :: k < j < |ms| ==> !Asks(id, ms[j], 0)
          ensures k < n && Asks(id, rest[k], 1) && forall j :: k < j < n ==> !Asks(id, rest[j], 0)
        {
          forall j | k < j < n ensures !Asks(id, rest[j], 0) {
            assert !Asks(id, ms[j], 0);
          }
        }
        if forall j :: 0 <= j < n ==> !Asks(id, rest[j], 0) {
          forall j | 0 <= j < |ms| ensures !Asks(id, ms[j], 0) {
            if j < n {
              assert !Asks(id, rest[j], 0);
            }
          }
        }
        if forall j :: 0 <= j < |ms| ==> !Asks(id, ms[j], 0) {
          forall j | 0 <= j < n ensures !Asks(id, rest[j], 0) {
            assert !Asks(id, ms[j], 0);
          }
        }
      }
    }
  }

  lemma {:induction false} FirstOrNone(requests: seq<CustomRequest>, id: nat)
    ensures (forall j :: 0 <= j < |requests| ==> requests[j].id != id) || exists k: nat :: FirstCustom(requests, id, k)
    decreases |requests|
  {
    if requests != [] {
      var n := |requests| - 1;
      FirstOrNone(requests[..n], id);
      if k: nat :| FirstCustom(requests[..n], id, k) {
        assert FirstCustom(requests, id, k);
      } else if requests[n].id == id {
        assert FirstCustom(requests, id, n);
      }
    }
  }

  lemma ProcessKeepsOpen(c: Conf, q: Request, size: nat, h: Handler)
    requires Open(c) && HasSection(c.layout, q.block, q.section) && c.enabled
    requires size == c.counter + 1 && (q.wish == WISH_SET || size == STD_REQ_MIN_MSG_SIZE) && q.wish <= WISH_BACKUP
    requires q.amount == AMOUNT_SINGLE || q.amount == AMOUNT_ALL
    ensures ProcessStandard(c, q, size, h).0.enabled
  {
    hide Extends, SendResponse, PartLoop, Parts;
    var backup := q.wish == WISH_BACKUP;
    var allParts :=
      (backup || q.wish == WISH_GET) && (q.part == PART_ALL_MESSAGES || q.part == PART_ALL_MESSAGES_WITH_ACK);
    var parts := if allParts then Parts(SectionOf(c, q)) else 1;
    var d := if backup then c.(buffer := c.buffer[STATUS_BYTE := REQUEST][WISH_BYTE := WISH_SET]) else c;
    var p := if backup then q.(wish := WISH_GET) else q;
    var local := if backup then size - 1 - 2 * BYTES_PER_VALUE else c.counter;
    PartsExtend(d, p, 0, parts, allParts, local, h);
    FinalAckKeepsOpen(PartLoop(d, p, 0, parts, allParts, local, h).0, p);
  }

  lemma FinalAckKeepsOpen(c: Conf, q: Request)
    requires |c.buffer| == MAX_MESSAGE_SIZE
    ensures FinalAck(c, q).enabled == c.enabled
  {
  }

  lemma StandardKeepsOpen(c: Conf, size: nat, h: Handler)
    requires Open(c) && size == c.counter + 1
    ensures StandardRequest(c, size, h).enabled == c.enabled
  {
    hide SendResponse, ProcessStandard, Decode;
    var (d, q) := Decode(c, size);
    DecodeFacts(c, size);
    SendKeepsOpen(d);
    if q.Some? {
      ProcessKeepsOpen(d, q.value, size, h);
      var (e, ok) := ProcessStandard(d, q.value, size, h);
      if !ok {
        SendKeepsOpen(e);
      }
    }
  }

  lemma SendKeepsOpen(c: Conf)
    requires Open(c)
    ensures SendResponse(c).enabled == c.enabled
  {
  }

  lemma SpecialShape(id: Id, m: seq<bv8>)
    requires |m| == 8 && Framed(m) && Mine(id, m) && m[4] == 0
    ensures m == SpecialRequest(id, m[5], m[6])
  {
  }

  lemma SpecialAsks(id: Id, part: bv8, wish: bv8, other: bv8)
    ensures Asks(id, SpecialRequest(id, part, wish), other) <==> wish == other
  {
    assert SpecialRequest(id, part, wish)[6] == wish;
    if wish == other {
      assert SpecialRequest(id, part, wish)[5] == part;
    }
  }

  lemma AskingIsSpecial(id: Id, m: seq<bv8>, wish: bv8)
    requires Asks(id, m, wish)
    ensures |m| == 8 && Framed(m) && Mine(id, m) && m[4] == 0 && m[6] == wish
  {
  }

  /** A special request opens or closes the session if that is its wish, and leaves it alone otherwise. */
  lemma SpecialSession(c: Conf, part: bv8, wish: bv8, h: Handler)
    requires Received(c, SpecialRequest(c.id, part, wish)) && c.layout != []
    ensures HandleRequest(c, h).enabled == if wish == 0 then false else if wish == 1 then true else c.enabled
  {
    hide HandleRequest, Received, SpecialRequest, FirstCustom;
    if wish == 0 {
      CloseRequest(c, part, h);
    } else if wish == 1 {
      OpenRequest(c, part, h);
    } else if wish <= 3 {
      ConstantRequest(c, part, wish, h);
    } else {
      var id := wish as nat;
      FirstOrNone(c.customRequests, id);
      if k: nat :| FirstCustom(c.customRequests, id, k) {
        CustomRequestAnswered(c, part, wish, k, h);
      } else {
        UnknownRequest(c, part, wish, h);
      }
    }
  }

  /** No request but these two changes whether the session is open. */
  lemma RequestSession(c: Conf, m: seq<bv8>, h: Handler)
    requires Received(c, m) && c.layout != []
    ensures HandleRequest(c, h).enabled == OpenAfter(c.id, c.enabled, m)
  {
    hide HandleRequest, Received, SpecialRequest, Asks, StandardRequest, ProcessSpecial, SendResponse, SetStatus;
    Dispatched(c, m, h);
    if Asks(c.id, m, 0) {
      AskingIsSpecial(c.id, m, 0);
    }
    if Asks(c.id, m, 1) {
      AskingIsSpecial(c.id, m, 1);
    }
    if Framed(m) && Mine(c.id, m) {
      if m[4] != 0 {
        NoRequest(c, m, h);
      } else if |m| == 8 {
        SpecialShape(c.id, m);
        SpecialAsks(c.id, m[5], m[6], 0);
        SpecialAsks(c.id, m[5], m[6], 1);
        SpecialSession(c, m[5], m[6], h);
      } else {
        StandardKeepsOpen(c.(counter := |m| - 1), |m|, h);
      }
    } else {
      Unanswered(c, m, h);
    }
  }

  // ---------------------------------------------------------------- messages out of packets

  /** What has been received of a message, if one has been begun. */
  datatype Receipt = Nothing | Partial(bytes: seq<bv8>)

  /** What a packet adds to it, and the message it completes if it does; a message longer than 79 bytes is dropped. */
  function Assemble(held: Receipt, u: Ump): (Receipt, Option<seq<bv8>>) {
    if !IsSysEx7Packet(u) then (Nothing, None)
    else
      var status, size := SysExStatusOf(u).value, SizeOf(PayloadSize(u));
      var begun := if status == Complete || status == Begin then Partial([0xF0]) else held;
      var ends := status == Complete || status == End;
      if begun == Nothing then (Nothing, None)
      else if |begun.bytes| + size + (if ends then 1 else 0) > 79 then (Nothing, None)
      else if ends then (Nothing, Some(begun.bytes + Lanes(u, size) + [0xF7]))
      else (Partial(begun.bytes + Lanes(u, size)), None)
  }

  /** What is held after packets, and the messages they complete. */
  function AssembleAll(held: Receipt, us: seq<Ump>): (Receipt, seq<seq<bv8>>)
    decreases |us|
  {
    if us == [] then (held, [])
    else
      var (before, ms) := AssembleAll(held, us[..|us| - 1]);
      var (now, m) := Assemble(before, us[|us| - 1]);
      (now, if m.Some? then ms + [m.value] else ms)
  }

  /** What a device has received of a message. */
  function HeldBy(c: Conf): Receipt
    requires Ready(c)
  {
    if c.umpActive then Partial(c.buffer[..c.counter]) else Nothing
  }

  lemma BegunHolds(c: Conf, status: SysExStatus)
    requires Ready(c)
    ensures
      var d := Begun(c, status);
      && SameSession(c, d) && d.log == c.log && d.frames == c.frames
      && HeldBy(d) == if status == Complete || status == Begin then Partial([0xF0]) else HeldBy(c)
  {
  }

  lemma TakenHolds(c: Conf, u: Ump, size: nat)
    requires Ready(c) && c.umpActive && size <= 6 && c.counter + size <= MAX_MESSAGE_SIZE
    ensures
      var d := Taken(c, u, size);
      && SameSession(c, d) && d.log == c.log && d.frames == c.frames && d.umpActive
      && d.counter == c.counter + size && d.buffer[..d.counter] == c.buffer[..c.counter] + Lanes(u, size)
  {
    hide Lanes;
  }

  lemma EndedHandles(c: Conf, h: Handler)
    requires Ready(c) && c.counter < MAX_MESSAGE_SIZE
    ensures
      var d := Push(c, SYS_EX_END).(umpActive := false);
      && Received(d, c.buffer[..c.counter] + [0xF7]) && SameSession(c, d) && d.log == c.log && d.frames == c.frames
      && Ended(c, h) == ResetUmp(HandleRequest(d, h))
  {
    hide HandleRequest;
    var d := Push(c, SYS_EX_END).(umpActive := false);
    assert d.buffer[..d.counter] == c.buffer[..c.counter] + [0xF7];
  }

  /** The request of a completed message has been handled, in a session like that of `c`. */
  ghost predicate HandledIn(c: Conf, m: seq<bv8>, h: Handler, r: Conf) {
    exists d ::
      && Received(d, m) && SameSession(c, d) && d.log == c.log && d.frames == c.frames
      && r == ResetUmp(HandleRequest(d, h))
  }

  /** The packet that ends a message. */
  lemma LastPart(c: Conf, d: Conf, u: Ump, size: nat, h: Handler)
    requires Ready(d) && d.umpActive && size <= 6 && d.counter + size + 1 <= MAX_MESSAGE_SIZE
    requires SameSession(c, d) && d.log == c.log && d.frames == c.frames
    ensures HandledIn(c, d.buffer[..d.counter] + Lanes(u, size) + [0xF7], h, Ended(Taken(d, u, size), h))
    ensures !Ended(Taken(d, u, size), h).umpActive
  {
    hide Lanes, Ended, Taken, HandleRequest, SameSession;
    TakenHolds(d, u, size);
    var e := Taken(d, u, size);
    EndedHandles(e, h);
    SameThrice(c, d, e);
    SameThrice(c, e, Push(e, SYS_EX_END).(umpActive := false));
  }

  /** A packet is received as it should be, and a message it completes is handled. */
  lemma PacketAssembles(c: Conf, u: Ump, h: Handler)
    requires Ready(c)
    ensures
      var (now, m) := Assemble(HeldBy(c), u);
      var r := HandlePacket(c, u, h);
      && HeldBy(r) == now
      && (m.None? ==> SameSession(c, r) && r.log == c.log && r.frames == c.frames)
      && (m.Some? ==> HandledIn(c, m.value, h, r))
  {
    hide IsSysEx7Packet, SysExStatusOf, PayloadSize, SizeOf, Lanes, Ended, Begun, Taken, SameSession, HandledIn;
    SameItself(c);
    ResetSame(c);
    if IsSysEx7Packet(u) {
      PacketHasStatus(u);
      var status := SysExStatusOf(u).value;
      var size := SizeOf(PayloadSize(u));
      SizeAtMostSix(PayloadSize(u));
      var d := Begun(c, status);
      BegunHolds(c, status);
      ResetSame(d);
      SameThrice(c, d, ResetUmp(d));
      if d.umpActive && d.counter + size + (if EndsMessage(status) then 1 else 0) <= MAX_MESSAGE_SIZE {
        if EndsMessage(status) {
          LastPart(c, d, u, size, h);
        } else {
          TakenHolds(d, u, size);
          SameThrice(c, d, Taken(d, u, size));
        }
      }
    }
  }

  lemma SizeAtMostSix(code: bv32)
    requires code <= 6
    ensures SizeOf(code) <= 6
  {
  }

  lemma ResetSame(c: Conf)
    ensures SameSession(c, ResetUmp(c)) && ResetUmp(c).log == c.log && ResetUmp(c).frames == c.frames
  {
  }

  lemma SameThrice(a: Conf, b: Conf, c: Conf)
    requires SameSession(a, b) && SameSession(b, c)
    ensures SameSession(a, c)
  {
  }

  /** A device that has received packets: the messages it has been sent decide whether its session is open. */
  lemma {:induction false} RunSession(c: Conf, us: seq<Ump>, h: Handler)
    requires Ready(c) && c.layout != []
    ensures
      var (held, ms) := AssembleAll(HeldBy(c), us);
      var r := HandlePackets(c, us, h);
      && HeldBy(r) == held && r.enabled == OpenAfterAll(c.id, c.enabled, ms)
      && r.layout == c.layout && r.id == c.id
    decreases |us|
  {
    hide Assemble, HandlePacket, OpenAfter, HandledIn, HandleRequest, HeldBy;
    if us != [] {
      var n := |us| - 1;
      RunSession(c, us[..n], h);
      LastPacket(c, us, h);
      var q := HandlePackets(c, us[..n], h);
      PacketAssembles(q, us[n], h);
      var m := Assemble(HeldBy(q), us[n]).1;
      var ms := AssembleAll(HeldBy(c), us[..n]).1;
      if m.Some? {
        HandledSession(q, m.value, h, HandlePacket(q, us[n], h));
        OneMoreMessage(c.id, c.enabled, ms, m.value);
      }
    }
  }

  lemma OneMoreMessage(id: Id, open: bool, ms: seq<seq<bv8>>, m: seq<bv8>)
    ensures OpenAfterAll(id, open, ms + [m]) == OpenAfter(id, OpenAfterAll(id, open, ms), m)
  {
    hide OpenAfter;
    assert (ms + [m])[..|ms + [m]| - 1] == ms;
  }

  lemma HandledSession(c: Conf, m: seq<bv8>, h: Handler, r: Conf)
    requires HandledIn(c, m, h, r) && c.layout != []
    ensures r.enabled == OpenAfter(c.id, c.enabled, m) && r.layout == c.layout && r.id == c.id
  {
    hide HandleRequest, OpenAfter, Extends;
    var d :| Received(d, m) && SameSession(c, d) && d.log == c.log && d.frames == c.frames
             && r == ResetUmp(HandleRequest(d, h));
    ReceivedLength(d, m);
    RequestSession(d, m, h);
    RequestExtends(d, h);
    ExtendsKeeps(d, HandleRequest(d, h));
  }

  lemma ExtendsKeeps(c: Conf, r: Conf)
    requires Extends(c, r)
    ensures r.layout == c.layout && r.id == c.id
  {
  }

  /** The last packet of a run. */
  lemma {:induction false} LastPacket(c: Conf, us: seq<Ump>, h: Handler)
    requires Ready(c) && us != []
    ensures HandlePackets(c, us, h) == HandlePacket(HandlePackets(c, us[..|us| - 1], h), us[|us| - 1], h)
    decreases |us|
  {
    hide HandlePacket;
    if |us| > 1 {
      LastPacket(HandlePacket(c, us[0], h), us[1..], h);
      assert us[1..][..|us| - 2] == us[..|us| - 1][1..];
    } else {
      assert us[..0] == [] && us[1..] == [];
    }
  }

  /**
   In every run, after a close and before the next open, a standard request for this device is answered with the
   error of a closed session (or for its length, if it has no full header), and the handler is not called.
   */
  lemma ClosedRefuses(c: Conf, us: seq<Ump>, h: Handler)
    requires Ready(c) && c.layout != [] && us != []
    requires
      var (held, ms) := AssembleAll(HeldBy(c), us[..|us| - 1]);
      var m := Assemble(held, us[|us| - 1]).1;
      && m.Some? && |m.value| > 8 && Framed(m.value) && Mine(c.id, m.value) && m.value[4] == 0
      && !OpenAfterAll(c.id, c.enabled, ms)
    ensures
      var q, r := HandlePackets(c, us[..|us| - 1], h), HandlePackets(c, us, h);
      var m := Assemble(AssembleAll(HeldBy(c), us[..|us| - 1]).0, us[|us| - 1]).1.value;
      && r.log == q.log && !r.enabled
      && r.frames == q.frames + [m[4 := if |m| >= 13 then 0x03 else 0x0B]]
  {
    hide Assemble, HandlePacket, HandleRequest, HandledIn, ErrorOf, HeldBy, Received, AssembleAll, OpenAfterAll;
    var n := |us| - 1;
    RunSession(c, us[..n], h);
    LastPacket(c, us, h);
    var q := HandlePackets(c, us[..n], h);
    PacketAssembles(q, us[n], h);
    HandledRefused(q, Assemble(HeldBy(q), us[n]).1.value, h, HandlePacket(q, us[n], h));
  }

  lemma HandledRefused(c: Conf, m: seq<bv8>, h: Handler, r: Conf)
    requires HandledIn(c, m, h, r) && c.layout != [] && !c.enabled
    requires |m| > 8 && Framed(m) && Mine(c.id, m) && m[4] == 0
    ensures r.log == c.log && !r.enabled && r.frames == c.frames + [m[4 := if |m| >= 13 then 0x03 else 0x0B]]
  {
    hide HandleRequest, ErrorOf;
    var d :| Received(d, m) && SameSession(c, d) && d.log == c.log && d.frames == c.frames
             && r == ResetUmp(HandleRequest(d, h));
    ErrorCases(d, m);
    RequestRefused(d, m, h);
  }
}
