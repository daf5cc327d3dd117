/**
 What SysExConf answers, byte by byte: requests for one parameter, special requests and refusals, each from the
 bytes that arrive to the bytes that are sent and the calls that are made.
 */
module SysExRequests {
  import opened Prelude
  import opened MidiUmp
  import opened SysExModel
  import opened SysExSafety
  import opened SysExBackup

  // ---------------------------------------------------------------- numbers

  /** Two data bytes as a number. */
  function Number(high: bv8, low: bv8): bv16 {
    ((high as bv16) << 7) | (low as bv16)
  }

  /** The two data bytes of the low fourteen bits of a number. */
  function High(v: bv16): bv8 {
    ((v >> 7) & 0x7F) as bv8
  }

  function Low(v: bv16): bv8 {
    (v & 0x7F) as bv8
  }

  lemma MergeIs(high: bv8, low: bv8)
    requires high < 0x80 && low < 0x80
    ensures Merge(high, low) == Number(high, low)
  {
  }

  lemma SplitIs(v: bv16)
    ensures SplitHigh(v) == High(v) && SplitLow(v) == Low(v)
    ensures SplitHigh(v & 0x3FFF) == High(v) && SplitLow(v & 0x3FFF) == Low(v)
  {
  }

  lemma MaskedStatus(status: bv8)
    ensures status < 0x80 ==> status & 0x7F == status
  {
  }

  // ---------------------------------------------------------------- a message in the buffer

  /** A message begins with F0 and ends with F7. */
  predicate Framed(m: seq<bv8>) {
    8 <= |m| && m[0] == 0xF0 && m[|m| - 1] == 0xF7
  }

  lemma MessageByte(c: Conf, m: seq<bv8>, k: nat)
    requires Received(c, m) && k < |m|
    ensures |c.buffer| == 79 && |m| <= 79 && c.buffer[k] == m[k]
  {
    assert c.buffer[k] == c.buffer[..c.counter][k];
  }

  /** What is in front of the end byte, with a status, after more bytes have been put behind it. */
  lemma StatusSent(c: Conf, m: seq<bv8>, status: bv8)
    requires Received(c, m) && Framed(m) && status < 0x80
    ensures
      var r := SendResponse(SetStatus(c.(counter := |m| - 1), status));
      r == c.(buffer := r.buffer, frames := c.frames + [m[4 := status]])
  {
    MaskedStatus(status);
    var d := SetStatus(c.(counter := |m| - 1), status);
    var r := Push(d, SYS_EX_END);
    MessageByte(c, m, 0);
    forall k | 0 <= k < |m| ensures r.buffer[k] == m[4 := status][k] {
      MessageByte(c, m, k);
    }
    assert r.buffer[..r.counter] == m[4 := status];
  }

  /** An answer under construction: the message up to its end byte with a status, and what was added. */
  predicate Answering(m: seq<bv8>, status: bv8, more: seq<bv8>, d: Conf) {
    && Framed(m) && |d.buffer| == 79 && d.counter == |m| - 1 + |more| < 79
    && d.buffer[..d.counter] == m[..|m| - 1][4 := status] + more
  }

  lemma AnswerBegins(c: Conf, m: seq<bv8>, status: bv8)
    requires Received(c, m) && Framed(m) && status < 0x80
    ensures Answering(m, status, [], SetStatus(c.(counter := |m| - 1), status))
  {
    MaskedStatus(status);
    var d := SetStatus(c.(counter := |m| - 1), status);
    MessageByte(c, m, 0);
    forall k | 0 <= k < |m| - 1 ensures d.buffer[k] == (m[..|m| - 1][4 := status] + [])[k] {
      MessageByte(c, m, k);
    }
  }

  lemma AnswerGoesOut(m: seq<bv8>, status: bv8, more: seq<bv8>, d: Conf)
    requires Answering(m, status, more, d)
    ensures
      var r := SendResponse(d);
      && r == d.(buffer := r.buffer, counter := d.counter + 1, frames := r.frames)
      && r.frames == d.frames + [m[..|m| - 1][4 := status] + more + [0xF7]]
  {
    var r := Push(d, SYS_EX_END);
    assert d.buffer[0] == d.buffer[..d.counter][0] == 0xF0;
    assert r.buffer[..r.counter] == d.buffer[..d.counter] + [0xF7];
  }

  lemma AnswerWithTwo(m: seq<bv8>, status: bv8, more: seq<bv8>, d: Conf, a: bv8, b: bv8)
    requires Answering(m, status, more, d) && d.counter + 2 < 79
    ensures Answering(m, status, more + [a, b], Push(Push(d, a), b))
  {
    var r := Push(Push(d, a), b);
    assert r.buffer[..r.counter] == d.buffer[..d.counter] + [a, b];
    assert (m[..|m| - 1][4 := status] + more) + [a, b] == m[..|m| - 1][4 := status] + (more + [a, b]);
  }

  /** Another status in an answer that is under construction. */
  lemma AnswerStatus(m: seq<bv8>, was: bv8, status: bv8, more: seq<bv8>, d: Conf)
    requires Answering(m, was, more, d)
    ensures Answering(m, status & 0x7F, more, SetStatus(d, status))
  {
    var r := SetStatus(d, status);
    assert r.buffer[..r.counter] == d.buffer[..d.counter][4 := status & 0x7F];
    assert (m[..|m| - 1][4 := was] + more)[4 := status & 0x7F] == m[..|m| - 1][4 := status & 0x7F] + more;
  }

  // ---------------------------------------------------------------- one parameter

  /** The first ten bytes: F0, identifier, status, part, wish, amount, block, section. */
  function Head(id: Id, status: bv8, part: bv8, wish: bv8, amount: bv8, b: bv8, s: bv8): (m: seq<bv8>)
    ensures |m| == 10
  {
    [0xF0, id.id1, id.id2, id.id3, status, part, wish, amount, b, s]
  }

  /** The request for one parameter: status 0, amount 0, then index and value in two data bytes each. */
  function SingleRequest(
      id: Id, part: bv8, wish: bv8, b: bv8, s: bv8, i1: bv8, i0: bv8, v1: bv8, v0: bv8): (m: seq<bv8>)
    ensures |m| == 15 && Framed(m)
  {
    Head(id, 0, part, wish, 0, b, s) + [i1, i0, v1, v0] + [0xF7]
  }

  /** What a request for one parameter decodes to. */
  function Single(wish: bv8, b: bv8, s: bv8, i1: bv8, i0: bv8, v1: bv8, v0: bv8): Request {
    Request(wish, 0, b as nat, s as nat, 0, Number(i1, i0) as nat, if wish == 1 then Number(v1, v0) else 0)
  }

  /** The bytes of a message in the buffer, one by one. */
  lemma AllBytes(c: Conf, m: seq<bv8>)
    requires Received(c, m)
    ensures |c.buffer| == 79 && |m| <= 79 && forall k :: 0 <= k < |m| ==> c.buffer[k] == m[k]
  {
    forall k | 0 <= k < |m| ensures c.buffer[k] == m[k] {
      MessageByte(c, m, k);
    }
  }

  lemma Zero()
    ensures Num(0) == 0
  {
  }

  lemma HeadBytes(id: Id, status: bv8, part: bv8, wish: bv8, amount: bv8, b: bv8, s: bv8)
    ensures
      var m := Head(id, status, part, wish, amount, b, s);
      && m[0] == 0xF0 && m[1] == id.id1 && m[2] == id.id2 && m[3] == id.id3 && m[4] == status && m[5] == part
      && m[6] == wish && m[7] == amount && m[8] == b && m[9] == s
  {
  }

  lemma SingleRequestBytes(id: Id, part: bv8, wish: bv8, b: bv8, s: bv8, i1: bv8, i0: bv8, v1: bv8, v0: bv8)
    ensures
      var m := SingleRequest(id, part, wish, b, s, i1, i0, v1, v0);
      && m[0] == 0xF0 && m[1] == id.id1 && m[2] == id.id2 && m[3] == id.id3 && m[4] == 0 && m[5] == part
      && m[6] == wish && m[7] == 0 && m[8] == b && m[9] == s && m[10] == i1 && m[11] == i0 && m[12] == v1
      && m[13] == v0 && m[14] == 0xF7
  {
    hide Head;
    HeadBytes(id, 0, part, wish, 0, b, s);
  }

  lemma SingleBytes(c: Conf, id: Id, part: bv8, wish: bv8, b: bv8, s: bv8, i1: bv8, i0: bv8, v1: bv8, v0: bv8)
    requires Received(c, SingleRequest(id, part, wish, b, s, i1, i0, v1, v0))
    ensures c.counter == 15 && |c.buffer| == 79
    ensures c.buffer[0] == 0xF0 && c.buffer[1] == id.id1 && c.buffer[2] == id.id2 && c.buffer[3] == id.id3
    ensures c.buffer[4] == 0 && c.buffer[5] == part && c.buffer[6] == wish && c.buffer[7] == 0
    ensures c.buffer[8] == b && c.buffer[9] == s && c.buffer[10] == i1 && c.buffer[11] == i0
    ensures c.buffer[12] == v1 && c.buffer[13] == v0 && c.buffer[14] == 0xF7
  {
    hide Received, SingleRequest;
    var m := SingleRequest(id, part, wish, b, s, i1, i0, v1, v0);
    ReceivedLength(c, m);
    SingleRequestBytes(id, part, wish, b, s, i1, i0, v1, v0);
    AllBytes(c, m);
  }

  lemma ReceivedLength(c: Conf, m: seq<bv8>)
    requires Received(c, m)
    ensures c.counter == |m| && Ready(c)
  {
  }

  lemma SingleFields(c: Conf, wish: bv8, b: bv8, s: bv8)
    requires |c.buffer| == 79 && c.buffer[5] == 0 && c.buffer[6] == wish && c.buffer[7] == 0
    requires c.buffer[8] == b && c.buffer[9] == s
    ensures Fields(c) == Request(wish, 0, b as nat, s as nat, 0, 0, 0)
  {
    Zero();
  }

  lemma SingleAccepted(layout: Layout, q: Request)
    requires HasSection(layout, q.block, q.section) && q.wish <= 2 && q.amount == 0 && q.part == 0
    ensures Refusal(layout, q, 15) == None
  {
    hide Parts;
  }

  lemma DecodeAccepts(c: Conf, size: nat, q: Request)
    requires Open(c) && c.enabled && 13 <= size <= MAX_MESSAGE_SIZE && Fields(c) == q
    requires Refusal(c.layout, q, size) == None
    ensures Decode(c, size) == (SetStatus(c, 1), Some(WithIndex(SetStatus(c, 1), q)))
  {
    hide Fields, Refusal, WithIndex, SetStatus;
  }

  lemma SingleIndex(c: Conf, wish: bv8, b: bv8, s: bv8, i1: bv8, i0: bv8, v1: bv8, v0: bv8)
    requires |c.buffer| == 79 && i1 < 0x80 && i0 < 0x80 && v1 < 0x80 && v0 < 0x80
    requires c.buffer[10] == i1 && c.buffer[11] == i0 && c.buffer[12] == v1 && c.buffer[13] == v0
    ensures
      WithIndex(c, Request(wish, 0, b as nat, s as nat, 0, 0, 0)) == Single(wish, b, s, i1, i0, v1, v0)
  {
    hide Number, Merge;
    MergeIs(i1, i0);
    MergeIs(v1, v0);
  }

  /** A request for one parameter that exists is accepted, and its numbers are read in their places. */
  lemma SingleDecoded(c: Conf, wish: bv8, b: bv8, s: bv8, i1: bv8, i0: bv8, v1: bv8, v0: bv8)
    requires Received(c, SingleRequest(c.id, 0, wish, b, s, i1, i0, v1, v0)) && c.enabled
    requires wish <= 2 && i1 < 0x80 && i0 < 0x80 && v1 < 0x80 && v0 < 0x80
    requires HasSection(c.layout, b as nat, s as nat)
    ensures
      var d := c.(counter := 14);
      Decode(d, 15) == (SetStatus(d, 1), Some(Single(wish, b, s, i1, i0, v1, v0)))
  {
    hide Fields, SetStatus, Received, SingleRequest, Refusal, WithIndex, Single, Decode;
    SingleBytes(c, c.id, 0, wish, b, s, i1, i0, v1, v0);
    ReceivedLength(c, SingleRequest(c.id, 0, wish, b, s, i1, i0, v1, v0));
    var d := c.(counter := 14);
    SingleFields(d, wish, b, s);
    var q := Request(wish, 0, b as nat, s as nat, 0, 0, 0);
    SingleAccepted(c.layout, q);
    DecodeAccepts(d, 15, q);
    IndexKept(d);
    SingleIndex(SetStatus(d, 1), wish, b, s, i1, i0, v1, v0);
  }

  lemma IndexKept(c: Conf)
    requires |c.buffer| == MAX_MESSAGE_SIZE
    ensures
      var r := SetStatus(c, 1);
      r.buffer[10] == c.buffer[10] && r.buffer[11] == c.buffer[11] && r.buffer[12] == c.buffer[12] &&
      r.buffer[13] == c.buffer[13]
  {
  }

  /** The one step of a request for one parameter. */
  function OneStep(c: Conf, q: Request, h: Handler): (r: (Conf, bool))
    requires Open(c) && HasSection(c.layout, q.block, q.section) && c.counter == 14
    ensures Open(r.0)
  {
    if q.wish == 0 then GetStep(c, q, 0, h) else SetStep(c, q, 0, 0, h)
  }

  lemma OneValueRead(c: Conf, q: Request, h: Handler)
    requires Open(c) && HasSection(c.layout, q.block, q.section) && c.counter == 14
    requires q.wish <= 1 && q.amount == 0
    ensures Values(c, q, 0, 0, 1, h) == OneStep(c, q, h)
  {
    hide GetStep, SetStep;
  }

  lemma OneMessageLoop(c: Conf, q: Request, h: Handler)
    requires Open(c) && HasSection(c.layout, q.block, q.section) && c.counter == 14 && q.wish <= 1
    ensures
      var (d, sent) := PartMessage(c, q, 0, false, 14, h);
      PartLoop(c, q, 0, 1, false, 14, h) == (d, sent)
  {
    hide PartMessage;
  }

  /** With one value to read or write, the loops over parts and values come to one step. */
  lemma OneValue(c: Conf, q: Request, h: Handler)
    requires Open(c) && HasSection(c.layout, q.block, q.section) && c.counter == 14
    requires q.wish <= 1 && q.amount == 0 && q.part == 0
    ensures
      var (e, ok) := OneStep(c, q, h);
      ProcessStandard(c, q, 15, h) == if ok then (SendResponse(e), true) else (e, false)
  {
    hide OneStep, Values, SendResponse, Parts;
    assert c.(counter := 14) == c;
    OneValueRead(c, q, h);
    OneMessageLoop(c, q, h);
  }

  /** The answer to an accepted request, to begin with. */
  function Started(c: Conf, size: nat): (d: Conf)
    requires |c.buffer| == 79 && 1 <= size <= 79
    ensures Open(d) && d.counter == size - 1 && d == c.(counter := size - 1, buffer := d.buffer)
  {
    SetStatus(c.(counter := size - 1), 1)
  }

  lemma SingleShape(wish: bv8, b: bv8, s: bv8, i1: bv8, i0: bv8, v1: bv8, v0: bv8)
    ensures
      var q := Single(wish, b, s, i1, i0, v1, v0);
      && q.wish == wish && q.amount == 0 && q.part == 0 && q.block == b as nat && q.section == s as nat
      && q.index == Number(i1, i0) as nat && q.newValue == (if wish == 1 then Number(v1, v0) else 0)
  {
    hide Number;
  }

  /** A request for one parameter that exists, in an open session, is processed. */
  lemma SingleHandled(c: Conf, q: Request, wish: bv8, b: bv8, s: bv8, i1: bv8, i0: bv8, v1: bv8, v0: bv8, h: Handler)
    requires Received(c, SingleRequest(c.id, 0, wish, b, s, i1, i0, v1, v0)) && c.enabled
    requires wish <= 1 && i1 < 0x80 && i0 < 0x80 && v1 < 0x80 && v0 < 0x80
    requires q == Single(wish, b, s, i1, i0, v1, v0) && HasSection(c.layout, q.block, q.section)
    ensures |c.buffer| == 79 && HandleRequest(c, h) == SendResponse(OneStep(Started(c, 15), q, h).0)
  {
    hide Decode, SetStatus, SingleRequest, Received, ProcessStandard, OneStep, SendResponse, Number, Single;
    var m := SingleRequest(c.id, 0, wish, b, s, i1, i0, v1, v0);
    SingleShape(wish, b, s, i1, i0, v1, v0);
    ReceivedLength(c, m);
    SingleBytes(c, c.id, 0, wish, b, s, i1, i0, v1, v0);
    SingleDecoded(c, wish, b, s, i1, i0, v1, v0);
    OneValue(Started(c, 15), q, h);
  }

  /** Whether a value may be written: a section with equal bounds takes any. */
  predicate InRange(section: Section, v: bv16) {
    section.min == section.max || (section.min <= v && v <= section.max)
  }

  /** The status a request to set one parameter is answered with. */
  function SetStatusOf(c: Conf, b: nat, s: nat, i: nat, v: bv16, h: Handler): (status: bv8)
    requires HasSection(c.layout, b, s)
  {
    if i >= c.layout[b][s].count then 0x09
    else if !InRange(c.layout[b][s], v) then 0x0A
    else
      var status := h(c.log + [Event(Set(b, s, i, v), true)]).status;
      if status == 0x01 || c.ignoreErrors then 0x01 else status & 0x7F
  }

  /** The calls made up to then and by such a request. */
  function SetLog(c: Conf, b: nat, s: nat, i: nat, v: bv16): seq<Event>
    requires HasSection(c.layout, b, s)
  {
    if i < c.layout[b][s].count && InRange(c.layout[b][s], v) then c.log + [Event(Set(b, s, i, v), true)] else c.log
  }

  lemma SetOnce(c: Conf, q: Request, m: seq<bv8>, h: Handler)
    requires Open(c) && c.enabled && HasSection(c.layout, q.block, q.section) && q.amount == 0
    requires Answering(m, 1, [], c)
    ensures
      var status := SetStatusOf(c, q.block, q.section, q.index, q.newValue, h);
      var e := SetStep(c, q, 0, 0, h).0;
      && e == c.(buffer := e.buffer, log := SetLog(c, q.block, q.section, q.index, q.newValue))
      && Answering(m, status, [], e)
  {
    hide SetStatus, Answering;
    StatusChanges(c, m, 0x09);
    StatusChanges(c, m, 0x0A);
    var d := Called(c, Set(q.block, q.section, q.index, q.newValue));
    SameAnswer(m, 1, [], c, d);
    StatusChanges(d, m, h(d.log).status);
  }

  lemma SameAnswer(m: seq<bv8>, status: bv8, more: seq<bv8>, c: Conf, d: Conf)
    requires Answering(m, status, more, c) && d.buffer == c.buffer && d.counter == c.counter
    ensures Answering(m, status, more, d)
  {
  }

  lemma StatusChanges(c: Conf, m: seq<bv8>, status: bv8)
    requires Answering(m, 1, [], c)
    ensures |c.buffer| == 79
    ensures Answering(m, status & 0x7F, [], SetStatus(c, status))
    ensures SetStatus(c, status) == c.(buffer := SetStatus(c, status).buffer)
    ensures status == 0x09 || status == 0x0A ==> status & 0x7F == status
  {
    AnswerStatus(m, 1, status, [], c);
  }

  /** The request with a status in it. */
  lemma SingleAnswer(
      id: Id, part: bv8, wish: bv8, b: bv8, s: bv8, i1: bv8, i0: bv8, v1: bv8, v0: bv8, status: bv8, more: seq<bv8>)
    ensures
      SingleRequest(id, part, wish, b, s, i1, i0, v1, v0)[..14][4 := status] + more + [0xF7] ==
      Head(id, status, part, wish, 0, b, s) + [i1, i0, v1, v0] + more + [0xF7]
  {
    var m := SingleRequest(id, part, wish, b, s, i1, i0, v1, v0);
    assert m[..14] == Head(id, 0, part, wish, 0, b, s) + [i1, i0, v1, v0];
    assert Head(id, 0, part, wish, 0, b, s)[4 := status] == Head(id, status, part, wish, 0, b, s);
    assert (Head(id, 0, part, wish, 0, b, s) + [i1, i0, v1, v0])[4 := status] ==
           Head(id, 0, part, wish, 0, b, s)[4 := status] + [i1, i0, v1, v0];
  }

  /** The same for the request as it is decoded. */
  lemma SetAnswered(c: Conf, q: Request, b: bv8, s: bv8, i1: bv8, i0: bv8, v1: bv8, v0: bv8, h: Handler)
    requires Received(c, SingleRequest(c.id, 0, 1, b, s, i1, i0, v1, v0)) && c.enabled
    requires i1 < 0x80 && i0 < 0x80 && v1 < 0x80 && v0 < 0x80
    requires q == Single(1, b, s, i1, i0, v1, v0) && HasSection(c.layout, q.block, q.section)
    ensures
      var status := SetStatusOf(c, q.block, q.section, q.index, q.newValue, h);
      var r := HandleRequest(c, h);
      && SameSession(c, r) && r.log == SetLog(c, q.block, q.section, q.index, q.newValue)
      && r.frames == c.frames + [Head(c.id, status, 0, 1, 0, b, s) + [i1, i0, v1, v0] + [0xF7]]
  {
    hide SetStatus, SingleRequest, Received, SetStep, SendResponse, SetStatusOf, SetLog, HandleRequest, Head,
         Answering, Single;
    var m := SingleRequest(c.id, 0, 1, b, s, i1, i0, v1, v0);
    SingleShape(1, b, s, i1, i0, v1, v0);
    SingleHandled(c, q, 1, b, s, i1, i0, v1, v0, h);
    AnswerBegins(c, m, 1);
    var d := Started(c, 15);
    SetOnce(d, q, m, h);
    var e := SetStep(d, q, 0, 0, h).0;
    SameSetStatus(c, d, q, h);
    var status := SetStatusOf(c, q.block, q.section, q.index, q.newValue, h);
    AnswerGoesOut(m, status, [], e);
    SingleAnswer(c.id, 0, 1, b, s, i1, i0, v1, v0, status, []);
    NoMore(Head(c.id, status, 0, 1, 0, b, s) + [i1, i0, v1, v0]);
  }

  /**
   SET of one parameter, from the bytes received to the bytes sent: the handler is called once, with the index and
   the value of the request, if the index is below the section's count and the value in its range, and not at all
   otherwise; the request comes back with the status that says which.
   */
  lemma SetSingle(c: Conf, b: bv8, s: bv8, i1: bv8, i0: bv8, v1: bv8, v0: bv8, h: Handler)
    requires Received(c, SingleRequest(c.id, 0, 1, b, s, i1, i0, v1, v0)) && c.enabled
    requires i1 < 0x80 && i0 < 0x80 && v1 < 0x80 && v0 < 0x80
    requires HasSection(c.layout, b as nat, s as nat)
    ensures
      var i, v := Number(i1, i0) as nat, Number(v1, v0);
      var status := SetStatusOf(c, b as nat, s as nat, i, v, h);
      var r := HandleRequest(c, h);
      && SameSession(c, r) && r.log == SetLog(c, b as nat, s as nat, i, v)
      && r.frames == c.frames + [Head(c.id, status, 0, 1, 0, b, s) + [i1, i0, v1, v0] + [0xF7]]
  {
    hide SingleRequest, Received, Number, SetStatusOf, SetLog, HandleRequest, Head, Single;
    SingleShape(1, b, s, i1, i0, v1, v0);
    SetAnswered(c, Single(1, b, s, i1, i0, v1, v0), b, s, i1, i0, v1, v0, h);
  }

  lemma NoMore(a: seq<bv8>)
    ensures a + [] == a
  {
  }

  lemma SameSetStatus(c: Conf, d: Conf, q: Request, h: Handler)
    requires HasSection(c.layout, q.block, q.section)
    requires d.layout == c.layout && d.log == c.log && d.ignoreErrors == c.ignoreErrors
    ensures SetStatusOf(d, q.block, q.section, q.index, q.newValue, h) ==
            SetStatusOf(c, q.block, q.section, q.index, q.newValue, h)
    ensures SetLog(d, q.block, q.section, q.index, q.newValue) == SetLog(c, q.block, q.section, q.index, q.newValue)
  {
  }

  /** The status a request to read one parameter is answered with, `fine` if the value could be read. */
  function GetStatusOf(c: Conf, b: nat, s: nat, i: nat, h: Handler, fine: bv8): (status: bv8)
    requires HasSection(c.layout, b, s)
  {
    if i >= c.layout[b][s].count then 0x09
    else
      var status := h(c.log + [Event(Get(b, s, i), true)]).status;
      if status == 0x01 || c.ignoreErrors then fine else status & 0x7F
  }

  /** The calls made up to then and by such a request. */
  function GetLog(c: Conf, b: nat, s: nat, i: nat): seq<Event>
    requires HasSection(c.layout, b, s)
  {
    if i < c.layout[b][s].count then c.log + [Event(Get(b, s, i), true)] else c.log
  }

  /** The value in two data bytes, if there is one: that of the handler, or 0 in place of an ignored error. */
  function GetDigits(c: Conf, b: nat, s: nat, i: nat, h: Handler): (digits: seq<bv8>)
    requires HasSection(c.layout, b, s)
    ensures |digits| <= 2
  {
    if i >= c.layout[b][s].count then []
    else
      var reply := h(c.log + [Event(Get(b, s, i), true)]);
      if reply.status == 0x01 then [High(reply.value), Low(reply.value)]
      else if c.ignoreErrors then [0, 0] else []
  }

  lemma ZeroDigits()
    ensures SplitHigh(0) == 0 && SplitLow(0) == 0
  {
  }

  lemma NoDigits(m: seq<bv8>, status: bv8, c: Conf, value: bv16)
    requires Answering(m, status, [], c) && c.counter + 2 < 79
    ensures AddToResponse(c, value) == Push(Push(c, SplitHigh(value)), SplitLow(value))
    ensures Answering(m, status, [SplitHigh(value), SplitLow(value)], AddToResponse(c, value))
  {
    hide SplitHigh, SplitLow;
    AnswerWithTwo(m, status, [], c, SplitHigh(value), SplitLow(value));
    assert [] + [SplitHigh(value), SplitLow(value)] == [SplitHigh(value), SplitLow(value)];
  }

  lemma GetOnce(c: Conf, q: Request, m: seq<bv8>, fine: bv8, h: Handler)
    requires Open(c) && c.enabled && HasSection(c.layout, q.block, q.section) && q.amount == 0 && c.counter + 2 < 79
    requires Answering(m, fine, [], c)
    ensures
      var status := GetStatusOf(c, q.block, q.section, q.index, h, fine);
      var e := GetStep(c, q, 0, h).0;
      && e == c.(buffer := e.buffer, counter := e.counter, log := GetLog(c, q.block, q.section, q.index))
      && Answering(m, status, GetDigits(c, q.block, q.section, q.index, h), e)
  {
    hide SetStatus, Answering, AddToResponse, SplitHigh, SplitLow, High, Low;
    StatusReplaced(c, m, fine, 0x09);
    var d := Called(c, Get(q.block, q.section, q.index));
    SameAnswer(m, fine, [], c, d);
    var reply := h(d.log);
    StatusReplaced(d, m, fine, reply.status);
    NoDigits(m, fine, d, reply.value);
    NoDigits(m, fine, d, 0);
    SplitIs(reply.value);
    ZeroDigits();
  }

  lemma StatusReplaced(c: Conf, m: seq<bv8>, was: bv8, status: bv8)
    requires Answering(m, was, [], c)
    ensures |c.buffer| == 79
    ensures Answering(m, status & 0x7F, [], SetStatus(c, status))
    ensures SetStatus(c, status) == c.(buffer := SetStatus(c, status).buffer)
    ensures status == 0x09 ==> status & 0x7F == status
  {
    AnswerStatus(m, was, status, [], c);
  }

  lemma SameGetStatus(c: Conf, d: Conf, q: Request, h: Handler, fine: bv8)
    requires HasSection(c.layout, q.block, q.section)
    requires d.layout == c.layout && d.log == c.log && d.ignoreErrors == c.ignoreErrors
    ensures GetStatusOf(d, q.block, q.section, q.index, h, fine) == GetStatusOf(c, q.block, q.section, q.index, h, fine)
    ensures GetLog(d, q.block, q.section, q.index) == GetLog(c, q.block, q.section, q.index)
    ensures GetDigits(d, q.block, q.section, q.index, h) == GetDigits(c, q.block, q.section, q.index, h)
  {
  }

  lemma GetAnsweredOnce(c: Conf, q: Request, b: bv8, s: bv8, i1: bv8, i0: bv8, v1: bv8, v0: bv8, h: Handler)
    requires Received(c, SingleRequest(c.id, 0, 0, b, s, i1, i0, v1, v0)) && c.enabled
    requires i1 < 0x80 && i0 < 0x80 && v1 < 0x80 && v0 < 0x80
    requires q == Single(0, b, s, i1, i0, v1, v0) && HasSection(c.layout, q.block, q.section)
    ensures
      var status := GetStatusOf(c, q.block, q.section, q.index, h, 0x01);
      var digits := GetDigits(c, q.block, q.section, q.index, h);
      var r := HandleRequest(c, h);
      && SameSession(c, r) && r.log == GetLog(c, q.block, q.section, q.index)
      && r.frames == c.frames + [Head(c.id, status, 0, 0, 0, b, s) + [i1, i0, v1, v0] + digits + [0xF7]]
  {
    hide SetStatus, SingleRequest, Received, GetStep, SendResponse, GetStatusOf, GetLog, GetDigits, HandleRequest, Head,
         Answering, Single;
    var m := SingleRequest(c.id, 0, 0, b, s, i1, i0, v1, v0);
    SingleShape(0, b, s, i1, i0, v1, v0);
    SingleHandled(c, q, 0, b, s, i1, i0, v1, v0, h);
    AnswerBegins(c, m, 1);
    var d := Started(c, 15);
    GetOnce(d, q, m, 1, h);
    var e := GetStep(d, q, 0, h).0;
    SameGetStatus(c, d, q, h, 1);
    var status := GetStatusOf(c, q.block, q.section, q.index, h, 1);
    var digits := GetDigits(c, q.block, q.section, q.index, h);
    AnswerGoesOut(m, status, digits, e);
    SingleAnswer(c.id, 0, 0, b, s, i1, i0, v1, v0, status, digits);
  }

  /**
   GET of one parameter, from the bytes received to the bytes sent: the handler is asked once for the index of the
   request if that is below the section's count; the request comes back, all its bytes in place, with the status and
   behind it the value.
   */
  lemma GetSingle(c: Conf, b: bv8, s: bv8, i1: bv8, i0: bv8, v1: bv8, v0: bv8, h: Handler)
    requires Received(c, SingleRequest(c.id, 0, 0, b, s, i1, i0, v1, v0)) && c.enabled
    requires i1 < 0x80 && i0 < 0x80 && v1 < 0x80 && v0 < 0x80
    requires HasSection(c.layout, b as nat, s as nat)
    ensures
      var i := Number(i1, i0) as nat;
      var status := GetStatusOf(c, b as nat, s as nat, i, h, 0x01);
      var digits := GetDigits(c, b as nat, s as nat, i, h);
      var r := HandleRequest(c, h);
      && SameSession(c, r) && r.log == GetLog(c, b as nat, s as nat, i)
      && r.frames == c.frames + [Head(c.id, status, 0, 0, 0, b, s) + [i1, i0, v1, v0] + digits + [0xF7]]
  {
    hide SingleRequest, Received, Number, GetStatusOf, GetLog, GetDigits, HandleRequest, Head, Single;
    SingleShape(0, b, s, i1, i0, v1, v0);
    GetAnsweredOnce(c, Single(0, b, s, i1, i0, v1, v0), b, s, i1, i0, v1, v0, h);
  }

  // ---------------------------------------------------------------- a backup of one parameter

  /** The response to a backup is begun as a SET request, without index and value. */
  function BackupStarted(c: Conf): (d: Conf)
    requires Open(c)
    ensures Open(d) && d.counter == 10 && d == c.(counter := 10, buffer := d.buffer)
  {
    c.(counter := 10, buffer := c.buffer[4 := 0][6 := 1])
  }

  lemma BackupStep(c: Conf, q: Request, h: Handler)
    requires Open(c) && HasSection(c.layout, q.block, q.section) && c.counter == 14
    requires q.wish == 2 && q.amount == 0 && q.part == 0
    ensures
      var (e, ok) := GetStep(BackupStarted(c), q.(wish := 0), 0, h);
      ProcessStandard(c, q, 15, h) == if ok then (SendResponse(e), true) else (e, false)
  {
    hide GetStep, SendResponse, Parts;
    var p := q.(wish := 0);
    var d := c.(buffer := c.buffer[4 := 0][6 := 1]);
    assert d.(counter := 10) == BackupStarted(c);
    BackupRead(BackupStarted(c), p, h);
    BackupLoop(d, p, h);
  }

  lemma BackupRead(c: Conf, q: Request, h: Handler)
    requires Open(c) && HasSection(c.layout, q.block, q.section) && c.counter == 10 && q.wish == 0 && q.amount == 0
    ensures Values(c, q, 0, 0, 1, h) == GetStep(c, q, 0, h)
  {
    hide GetStep;
  }

  lemma BackupLoop(c: Conf, q: Request, h: Handler)
    requires Open(c) && HasSection(c.layout, q.block, q.section) && q.wish == 0 && q.amount == 0
    ensures PartLoop(c, q, 0, 1, false, 10, h) == PartMessage(c, q, 0, false, 10, h)
  {
    hide PartMessage;
  }

  /** The frame of a backup as it begins. */
  function BackupHead(id: Id, b: bv8, s: bv8): (m: seq<bv8>)
    ensures |m| == 11 && Framed(m)
  {
    Head(id, 0, 0, 1, 0, b, s) + [0xF7]
  }

  lemma BackupBegins(c: Conf, b: bv8, s: bv8, i1: bv8, i0: bv8, v1: bv8, v0: bv8)
    requires Received(c, SingleRequest(c.id, 0, 2, b, s, i1, i0, v1, v0))
    ensures |c.buffer| == 79 && Answering(BackupHead(c.id, b, s), 0, [], BackupStarted(Started(c, 15)))
  {
    hide Received, SingleRequest;
    SingleBytes(c, c.id, 0, 2, b, s, i1, i0, v1, v0);
    var m := BackupHead(c.id, b, s);
    HeadBytes(c.id, 0, 0, 1, 0, b, s);
    var d := BackupStarted(Started(c, 15));
    assert m[..10][4 := 0] == Head(c.id, 0, 0, 1, 0, b, s);
    forall k | 0 <= k < 10 ensures d.buffer[k] == (m[..10][4 := 0] + [])[k] {
    }
  }

  lemma BackupHandled(c: Conf, q: Request, b: bv8, s: bv8, i1: bv8, i0: bv8, v1: bv8, v0: bv8, h: Handler)
    requires Received(c, SingleRequest(c.id, 0, 2, b, s, i1, i0, v1, v0)) && c.enabled
    requires i1 < 0x80 && i0 < 0x80 && v1 < 0x80 && v0 < 0x80
    requires q == Single(2, b, s, i1, i0, v1, v0) && HasSection(c.layout, q.block, q.section)
    ensures |c.buffer| == 79
    ensures HandleRequest(c, h) == SendResponse(GetStep(BackupStarted(Started(c, 15)), q.(wish := 0), 0, h).0)
  {
    hide SetStatus, SingleRequest, Received, GetStep, SendResponse, Single, Decode, ProcessStandard, BackupStarted;
    SingleShape(2, b, s, i1, i0, v1, v0);
    ReceivedLength(c, SingleRequest(c.id, 0, 2, b, s, i1, i0, v1, v0));
    SingleBytes(c, c.id, 0, 2, b, s, i1, i0, v1, v0);
    SingleDecoded(c, 2, b, s, i1, i0, v1, v0);
    BackupStep(Started(c, 15), q, h);
  }

  /** The answer to a backup of one parameter is the head of a SET request and the value, without the index. */
  lemma BackupSingle(c: Conf, q: Request, b: bv8, s: bv8, i1: bv8, i0: bv8, v1: bv8, v0: bv8, h: Handler)
    requires Received(c, SingleRequest(c.id, 0, 2, b, s, i1, i0, v1, v0)) && c.enabled
    requires i1 < 0x80 && i0 < 0x80 && v1 < 0x80 && v0 < 0x80
    requires q == Single(2, b, s, i1, i0, v1, v0) && HasSection(c.layout, q.block, q.section)
    ensures
      var status := GetStatusOf(c, q.block, q.section, q.index, h, 0x00);
      var digits := GetDigits(c, q.block, q.section, q.index, h);
      var r := HandleRequest(c, h);
      && SameSession(c, r) && r.log == GetLog(c, q.block, q.section, q.index)
      && r.frames == c.frames + [Head(c.id, status, 0, 1, 0, b, s) + digits + [0xF7]]
  {
    hide SetStatus, SingleRequest, Received, GetStep, SendResponse, GetStatusOf, GetLog, GetDigits, Head, Answering,
         Single, HandleRequest, BackupHead, BackupStarted;
    SingleShape(2, b, s, i1, i0, v1, v0);
    BackupHandled(c, q, b, s, i1, i0, v1, v0, h);
    BackupBegins(c, b, s, i1, i0, v1, v0);
    var m, d, p := BackupHead(c.id, b, s), BackupStarted(Started(c, 15)), q.(wish := 0);
    GetOnce(d, p, m, 0, h);
    SameGetStatus(c, d, p, h, 0);
    var status := GetStatusOf(c, q.block, q.section, q.index, h, 0);
    AnswerGoesOut(m, status, GetDigits(c, q.block, q.section, q.index, h), GetStep(d, p, 0, h).0);
    BackupAnswer(c.id, b, s, status);
  }

  lemma BackupAnswer(id: Id, b: bv8, s: bv8, status: bv8)
    ensures BackupHead(id, b, s)[..10][4 := status] == Head(id, status, 0, 1, 0, b, s)
  {
    assert BackupHead(id, b, s)[..10] == Head(id, 0, 0, 1, 0, b, s);
  }
}
