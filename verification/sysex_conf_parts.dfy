/** Requests for all parts of a section: every frame of the answer, and the acknowledgement behind them. */
module SysExParts {
  import opened Prelude
  import opened MidiUmp
  import opened SysExModel
  import opened SysExSafety
  import opened SysExBackup
  import opened SysExRequests

  // ---------------------------------------------------------------- frames by their bytes

  /** A number below 256 in a byte is that byte. */
  lemma ByteOf(b: bv8)
    ensures Byte8(b as nat) == b
  {
    var n := b as nat;
    assert n % 0x100 == n;
  }

  /** The head of a frame for all values of a part, byte by byte. */
  lemma HeaderIs(id: Id, status: bv8, part: nat, wish: bv8, b: nat, s: nat)
    ensures
      Header(id, status, part, wish, b, s) ==
      [0xF0, id.id1, id.id2, id.id3, status, Byte8(part), wish, 1, Byte8(b), Byte8(s)]
  {
    hide Byte8;
  }

  /** The values of a frame, two data bytes for each. */
  lemma EncodeIs(vs: seq<bv16>, k: nat)
    requires k < |vs|
    ensures Encode(vs)[2 * k] == ((vs[k] >> 7) & 0x7F) as bv8 && Encode(vs)[2 * k + 1] == (vs[k] & 0x7F) as bv8
  {
    hide Encode, SplitHigh, SplitLow;
    EncodeAt(vs, k);
    SplitIs(vs[k]);
  }

  // ---------------------------------------------------------------- one part of many

  /** The head of a GET answer and the four bytes behind it. */
  predicate Begins(c: Conf, part: nat, b: nat, s: nat, four: seq<bv8>) {
    |c.buffer| == MAX_MESSAGE_SIZE && c.buffer[..14] == Header(c.id, ACK, part, WISH_GET, b, s) + four
  }

  /** The answer to a GET of one part of all. */
  function GetFrame(id: Id, part: nat, b: nat, s: nat, four: seq<bv8>, vals: seq<bv16>): seq<bv8>
    requires PARAMS_PER_MESSAGE * part <= |vals|
  {
    Header(id, ACK, part, WISH_GET, b, s) + four + Encode(PartValues(vals, part)) + [SYS_EX_END]
  }

  function GetFrames(id: Id, b: nat, s: nat, four: seq<bv8>, vals: seq<bv16>, j: nat, parts: nat): (r: seq<seq<bv8>>)
    requires j < parts ==> PARAMS_PER_MESSAGE * (parts - 1) <= |vals|
    ensures |r| == if j < parts then parts - j else 0
    decreases parts - j
  {
    if j >= parts then [] else [GetFrame(id, j, b, s, four, vals)] + GetFrames(id, b, s, four, vals, j + 1, parts)
  }

  lemma PartByte(c: Conf, was: nat, part: nat, b: nat, s: nat, four: seq<bv8>)
    requires Begins(c, was, b, s, four) && |four| == 4
    ensures Begins(c.(counter := 14, buffer := c.buffer[PART_BYTE := Byte8(part)]), part, b, s, four)
  {
    hide Byte8;
    var now := c.buffer[PART_BYTE := Byte8(part)];
    HeaderIs(c.id, ACK, was, WISH_GET, b, s);
    HeaderIs(c.id, ACK, part, WISH_GET, b, s);
    forall i | 0 <= i < 14 ensures now[i] == (Header(c.id, ACK, part, WISH_GET, b, s) + four)[i] {
      assert c.buffer[i] == c.buffer[..14][i];
    }
    assert now[..14] == Header(c.id, ACK, part, WISH_GET, b, s) + four;
  }

  /** A response that has been sent still begins as it did. */
  lemma SentBegins(e: Conf, head: seq<bv8>, values: seq<bv8>)
    requires Open(e) && |head| == 14 && head[0] == SYS_EX_START && e.counter == 14 + |values|
    requires e.buffer[..e.counter] == head + values
    ensures
      var r := SendResponse(e);
      && r.frames == e.frames + [head + values + [SYS_EX_END]] && SameSession(e, r) && r.log == e.log
      && r.buffer[..14] == head
  {
    var r := Push(e, SYS_EX_END);
    assert r.buffer[..r.counter] == e.buffer[..e.counter] + [SYS_EX_END];
    assert e.buffer[0] == e.buffer[..e.counter][0] == head[0];
    assert r.buffer[..14] == e.buffer[..e.counter][..14] == head;
  }

  lemma GetPart(c: Conf, q: Request, four: seq<bv8>, vals: seq<bv16>, h: Handler)
    requires HasSection(c.layout, q.block, q.section) && c.counter == 14 && |four| == 4
    requires q.wish == WISH_GET && q.amount == AMOUNT_ALL && |vals| == SectionOf(c, q).count
    requires PARAMS_PER_MESSAGE * q.part < |vals| && Answers(h, q.block, q.section, vals)
    requires Begins(c, q.part, q.block, q.section, four)
    ensures
      var start := PARAMS_PER_MESSAGE * q.part;
      var (e, ok) := Values(c, q, start, start, EndIndex(SectionOf(c, q), q), h);
      var r := SendResponse(e);
      && ok && SameSession(c, r) && Begins(r, q.part, q.block, q.section, four)
      && r.frames == c.frames + [GetFrame(c.id, q.part, q.block, q.section, four, vals)]
  {
    hide Values, Encode, Header, Answers;
    var start := PARAMS_PER_MESSAGE * q.part;
    var end := EndIndex(SectionOf(c, q), q);
    GetValues(c, q, start, start, end, vals, h);
    var e := Values(c, q, start, start, end, h).0;
    SentBegins(e, Header(c.id, ACK, q.part, WISH_GET, q.block, q.section) + four, Encode(vals[start..end]));
    assert vals[start..end] == PartValues(vals, q.part);
  }

  lemma NextPart(c: Conf, q: Request, j: nat, parts: nat, h: Handler)
    requires |c.buffer| == MAX_MESSAGE_SIZE && HasSection(c.layout, q.block, q.section) && j < parts
    ensures
      var d := c.(counter := 14, buffer := c.buffer[PART_BYTE := Byte8(j)]);
      var p := q.(part := j);
      var (e, ok) := Values(d, p, FirstIndex(p), FirstIndex(p), EndIndex(SectionOf(d, p), p), h);
      ok ==> PartLoop(c, q, j, parts, true, 14, h) == PartLoop(SendResponse(e), p, j + 1, parts, true, 14, h)
  {
    hide Values, SendResponse, Byte8, EndIndex, FirstIndex;
  }

  lemma NoMoreParts(c: Conf, q: Request, parts: nat, h: Handler)
    requires |c.buffer| == MAX_MESSAGE_SIZE && HasSection(c.layout, q.block, q.section)
    ensures PartLoop(c, q, parts, parts, true, 14, h) == (c, true)
  {
  }

  /** All parts from `j` on. */
  lemma {:induction false} GetParts(
      c: Conf, q: Request, was: nat, four: seq<bv8>, j: nat, parts: nat, vals: seq<bv16>, h: Handler)
    requires HasSection(c.layout, q.block, q.section) && Begins(c, was, q.block, q.section, four) && |four| == 4
    requires q.wish == WISH_GET && q.amount == AMOUNT_ALL && |vals| == SectionOf(c, q).count
    requires j <= parts && PARAMS_PER_MESSAGE * (parts - 1) < |vals| && Answers(h, q.block, q.section, vals)
    ensures
      var (r, ok) := PartLoop(c, q, j, parts, true, 14, h);
      && ok && SameSession(c, r)
      && r.frames == c.frames + GetFrames(c.id, q.block, q.section, four, vals, j, parts)
    decreases parts - j
  {
    hide Values, Header, Answers, GetFrame, PartValues, Begins, SendResponse, PartLoop, Byte8, EndIndex;
    BufferLength(c, was, q.block, q.section, four);
    if j == parts {
      NoMoreParts(c, q, parts, h);
      assert c.frames + [] == c.frames;
    } else {
      var d := c.(counter := 14, buffer := c.buffer[PART_BYTE := Byte8(j)]);
      var p := q.(part := j);
      PartByte(c, was, j, q.block, q.section, four);
      GetPart(d, p, four, vals, h);
      NextPart(c, q, j, parts, h);
      var start := PARAMS_PER_MESSAGE * j;
      var r := SendResponse(Values(d, p, start, start, EndIndex(SectionOf(d, p), p), h).0);
      GetParts(r, p, j, four, j + 1, parts, vals, h);
      var one := [GetFrame(c.id, j, q.block, q.section, four, vals)];
      var more := GetFrames(c.id, q.block, q.section, four, vals, j + 1, parts);
      assert (c.frames + one) + more == c.frames + (one + more);
    }
  }

  lemma BufferLength(c: Conf, part: nat, b: nat, s: nat, four: seq<bv8>)
    requires Begins(c, part, b, s, four)
    ensures |c.buffer| == MAX_MESSAGE_SIZE
  {
  }

  // ---------------------------------------------------------------- the request

  /** A request for all parts: the four bytes behind the head are free. */
  function AllRequest(id: Id, part: nat, wish: bv8, b: nat, s: nat, four: seq<bv8>): (m: seq<bv8>)
    requires |four| == 4
    ensures |m| == 15
  {
    Header(id, REQUEST, part, wish, b, s) + four + [SYS_EX_END]
  }

  /** The acknowledgement that ends the answer to a request for part 126. */
  function LastFrame(id: Id, b: nat, s: nat): seq<bv8> {
    [0xF0, id.id1, id.id2, id.id3, 1, 126, 0, 1, Byte8(b), Byte8(s), 0, 0, 0, 0, 0xF7]
  }

  lemma AckPart()
    ensures Byte8(PART_ALL_MESSAGES_WITH_ACK) == 126
  {
    assert PART_ALL_MESSAGES_WITH_ACK % 0x100 == 126;
    assert 126 as bv8 == 0x7E;
  }

  lemma AckSent(c: Conf, q: Request)
    requires |c.buffer| == MAX_MESSAGE_SIZE && q.wish == WISH_GET && q.amount == AMOUNT_ALL
    ensures
      var r := FinalAck(c, q);
      SameSession(c, r) && r.log == c.log && r.frames == c.frames + [LastFrame(c.id, q.block, q.section)]
  {
    hide Byte8;
    AckPart();
    var head :=
      [SYS_EX_START, c.id.id1, c.id.id2, c.id.id3, ACK, Byte8(PART_ALL_MESSAGES_WITH_ACK), q.wish, q.amount,
       Byte8(q.block), Byte8(q.section), 0, 0, 0, 0];
    var d := c.(buffer := head + c.buffer[14..], counter := 14);
    assert d.buffer[..14] == head + [];
    SentBegins(d, head, []);
    assert head + [] + [SYS_EX_END] == LastFrame(c.id, q.block, q.section);
  }

  /** The frames behind the parts. */
  function Ending(id: Id, part: nat, b: nat, s: nat): seq<seq<bv8>> {
    if part == 126 then [LastFrame(id, b, s)] else []
  }

  /** A request for all parts is accepted. */
  lemma AllHandled(c: Conf, part: nat, wish: bv8, b: nat, s: nat, four: seq<bv8>, h: Handler)
    requires |four| == 4 && Received(c, AllRequest(c.id, part, wish, b, s, four)) && c.enabled
    requires (part == 126 || part == 127) && (wish == 0 || wish == 2) && b < 0x80 && s < 0x80
    requires HasSection(c.layout, b, s)
    ensures |c.buffer| == MAX_MESSAGE_SIZE
    ensures
      var e := Started(c, 15);
      && e.buffer[..14] == Header(c.id, ACK, part, wish, b, s) + four
      && var (r, ok) := ProcessStandard(e, Request(wish, AMOUNT_ALL, b, s, part, 0, 0), 15, h);
         HandleRequest(c, h) == if ok then r else SendResponse(r)
  {
    hide Header, Parts, Decode, SetStatus, ProcessStandard, SendResponse;
    var d := c.(counter := 14);
    Pieces(c, Header(c.id, REQUEST, part, wish, b, s), four);
    SysExBackup.HeaderFields(d, REQUEST, part, wish, b, s);
    Accepted(d, REQUEST, part, wish, b, s, 15);
    HeaderStatus(d, REQUEST, part, wish, b, s, ACK);
    StatusOnly(d, ACK);
    var e := Started(c, 15);
    assert e.buffer[10..14] == e.buffer[10..][..4] == c.buffer[10..][..4] == four;
    assert e.buffer[..14] == e.buffer[..10] + e.buffer[10..14];
  }

  lemma GetAllProcessed(c: Conf, q: Request, four: seq<bv8>, vals: seq<bv16>, h: Handler)
    requires Open(c) && c.counter == 14 && |four| == 4 && HasSection(c.layout, q.block, q.section)
    requires q == Request(WISH_GET, AMOUNT_ALL, q.block, q.section, q.part, 0, 0) && (q.part == 126 || q.part == 127)
    requires SectionOf(c, q).count == |vals| && 1 <= |vals| <= 4032 && Answers(h, q.block, q.section, vals)
    requires c.buffer[..14] == Header(c.id, ACK, q.part, WISH_GET, q.block, q.section) + four
    ensures PARAMS_PER_MESSAGE * (Parts(SectionOf(c, q)) - 1) < |vals|
    ensures
      var (r, ok) := ProcessStandard(c, q, 15, h);
      && ok && SameSession(c, r)
      && r.frames == c.frames + GetFrames(c.id, q.block, q.section, four, vals, 0, Parts(SectionOf(c, q))) +
                     Ending(c.id, q.part, q.block, q.section)
  {
    hide PartLoop, Parts, Answers, Header, GetFrames, FinalAck, LastFrame;
    var parts := Parts(SectionOf(c, q));
    PartsBound(SectionOf(c, q), 0);
    GetParts(c, q, q.part, four, 0, parts, vals, h);
    var e := PartLoop(c, q, 0, parts, true, 14, h).0;
    AckSent(e, q);
    assert e.frames + [] == e.frames;
  }

  lemma BackupAllProcessed(c: Conf, q: Request, four: seq<bv8>, vals: seq<bv16>, h: Handler)
    requires Open(c) && c.counter == 14 && |four| == 4 && HasSection(c.layout, q.block, q.section)
    requires q == Request(WISH_BACKUP, AMOUNT_ALL, q.block, q.section, q.part, 0, 0) && (q.part == 126 || q.part == 127)
    requires SectionOf(c, q).count == |vals| && 1 <= |vals| <= 4032 && Answers(h, q.block, q.section, vals)
    requires c.buffer[..14] == Header(c.id, ACK, q.part, WISH_BACKUP, q.block, q.section) + four
    ensures PARAMS_PER_MESSAGE * (Parts(SectionOf(c, q)) - 1) < |vals|
    ensures
      var (r, ok) := ProcessStandard(c, q, 15, h);
      && ok && SameSession(c, r)
      && r.frames == c.frames + PartFrames(c.id, REQUEST, q.block, q.section, vals, 0, Parts(SectionOf(c, q))) +
                     Ending(c.id, q.part, q.block, q.section)
  {
    hide PartLoop, Parts, Answers, Header, PartFrames, FinalAck, LastFrame, Headed;
    var parts := Parts(SectionOf(c, q));
    PartsBound(SectionOf(c, q), 0);
    var d, p := c.(buffer := c.buffer[STATUS_BYTE := REQUEST][WISH_BYTE := WISH_SET]), q.(wish := WISH_GET);
    assert c.buffer[..10] == c.buffer[..14][..10];
    AsSet(c, q.part, q.block, q.section);
    BackupParts(d, p, 0, parts, vals, h);
    var e := PartLoop(d, p, 0, parts, true, 10, h).0;
    AckSent(e, p);
    assert e.frames + [] == e.frames;
  }

  /** The header of a backup request becomes the header of a SET request. */
  lemma AsSet(c: Conf, part: nat, b: nat, s: nat)
    requires |c.buffer| == MAX_MESSAGE_SIZE && c.buffer[..10] == Header(c.id, ACK, part, WISH_BACKUP, b, s)
    ensures Headed(c.(buffer := c.buffer[STATUS_BYTE := REQUEST][WISH_BYTE := WISH_SET]), REQUEST, WISH_SET, b, s)
  {
    hide Byte8;
    var now := c.buffer[STATUS_BYTE := REQUEST][WISH_BYTE := WISH_SET];
    var header := Header(c.id, REQUEST, part, WISH_SET, b, s);
    forall i | 0 <= i < 10 ensures now[i] == header[i] {
      assert c.buffer[i] == c.buffer[..10][i];
    }
    assert now[..10] == header;
  }

  /**
   GET of all parts: one frame for each part of the section, in order, with its values behind the four bytes of the
   request; for part 126 the acknowledgement follows.
   */
  lemma GetAll(c: Conf, part: nat, b: nat, s: nat, four: seq<bv8>, vals: seq<bv16>, h: Handler)
    requires |four| == 4 && Received(c, AllRequest(c.id, part, WISH_GET, b, s, four)) && c.enabled
    requires (part == 126 || part == 127) && b < 0x80 && s < 0x80 && HasSection(c.layout, b, s)
    requires c.layout[b][s].count == |vals| && 1 <= |vals| <= 4032 && Answers(h, b, s, vals)
    ensures PARAMS_PER_MESSAGE * (Parts(c.layout[b][s]) - 1) < |vals|
    ensures
      var r := HandleRequest(c, h);
      && SameSession(c, r)
      && r.frames == c.frames + GetFrames(c.id, b, s, four, vals, 0, Parts(c.layout[b][s])) + Ending(c.id, part, b, s)
  {
    hide Header, Parts, ProcessStandard, HandleRequest, SendResponse, Answers, GetFrames, Ending, SetStatus;
    AllHandled(c, part, WISH_GET, b, s, four, h);
    GetAllProcessed(Started(c, 15), Request(WISH_GET, AMOUNT_ALL, b, s, part, 0, 0), four, vals, h);
  }

  /** BACKUP of all parts: one SET request for each part, and for part 126 the acknowledgement. */
  lemma BackupAll(c: Conf, part: nat, b: nat, s: nat, four: seq<bv8>, vals: seq<bv16>, h: Handler)
    requires |four| == 4 && Received(c, AllRequest(c.id, part, WISH_BACKUP, b, s, four)) && c.enabled
    requires (part == 126 || part == 127) && b < 0x80 && s < 0x80 && HasSection(c.layout, b, s)
    requires c.layout[b][s].count == |vals| && 1 <= |vals| <= 4032 && Answers(h, b, s, vals)
    ensures PARAMS_PER_MESSAGE * (Parts(c.layout[b][s]) - 1) < |vals|
    ensures
      var r := HandleRequest(c, h);
      && SameSession(c, r)
      && r.frames == c.frames + PartFrames(c.id, REQUEST, b, s, vals, 0, Parts(c.layout[b][s])) +
                     Ending(c.id, part, b, s)
  {
    hide Header, Parts, ProcessStandard, HandleRequest, SendResponse, Answers, PartFrames, Ending, SetStatus;
    AllHandled(c, part, WISH_BACKUP, b, s, four, h);
    BackupAllProcessed(Started(c, 15), Request(WISH_BACKUP, AMOUNT_ALL, b, s, part, 0, 0), four, vals, h);
  }

  // ---------------------------------------------------------------- SET of one part, whatever the handler says

  /** What a SET of values comes to: the calls made so far and by it, its status, and whether all were set. */
  datatype Outcome = Outcome(log: seq<Event>, status: bv8, complete: bool)

  /** The values from `i` on, until one is out of range or the handler refuses it and that is not to be ignored. */
  function SetUntil(
      log: seq<Event>, section: Section, ignore: bool, b: nat, s: nat, vals: seq<bv16>, i: nat, end: nat, h: Handler)
      : Outcome
    requires end <= |vals|
    decreases end - i
  {
    if i >= end then Outcome(log, 0x01, true)
    else if !InRange(section, vals[i]) then Outcome(log, 0x0A, false)
    else
      var now := log + [Event(Set(b, s, i, vals[i]), true)];
      var status := h(now).status;
      if status == 0x01 || ignore then SetUntil(now, section, ignore, b, s, vals, i + 1, end, h)
      else Outcome(now, status & 0x7F, false)
  }

  /** The values are numbers of fourteen bits. */
  predicate FourteenBit(vals: seq<bv16>) {
    forall i :: 0 <= i < |vals| ==> vals[i] & 0x3FFF == vals[i]
  }

  lemma MaskTwice(status: bv8)
    ensures (status & 0x7F) & 0x7F == status & 0x7F
  {
  }

  lemma SetOne(c: Conf, q: Request, i: nat, start: nat, v: bv16, h: Handler)
    requires Open(c) && HasSection(c.layout, q.block, q.section) && start <= i < start + PARAMS_PER_MESSAGE
    requires q.amount == AMOUNT_ALL && v & 0x3FFF == v
    requires c.buffer[ValueAt(i, start)] == SplitHigh(v) && c.buffer[ValueAt(i, start) + 1] == SplitLow(v)
    ensures
      var d := Called(c, Set(q.block, q.section, i, v));
      var status := h(d.log).status;
      SetStep(c, q, i, start, h) ==
      if !InRange(SectionOf(c, q), v) then (SetStatus(c, 0x0A), false)
      else if status == 0x01 || c.ignoreErrors then (d, true)
      else (SetStatus(d, status & 0x7F), false)
  {
    hide SplitHigh, SplitLow, Merge;
    MergeSplit(v);
    var d := Called(c, Set(q.block, q.section, i, v));
    SameStatus(d, h(d.log).status);
  }

  lemma SameStatus(c: Conf, status: bv8)
    requires |c.buffer| == MAX_MESSAGE_SIZE
    ensures SetStatus(c, status) == SetStatus(c, status & 0x7F)
  {
    MaskTwice(status);
  }

  /** Where value `i` of a part is in the buffer. */
  lemma ValueBytes(c: Conf, i: nat, start: nat, end: nat, vals: seq<bv16>)
    requires |c.buffer| == MAX_MESSAGE_SIZE && start <= i < end <= start + PARAMS_PER_MESSAGE && end <= |vals|
    requires c.buffer[INDEX_BYTE..INDEX_BYTE + 2 * (end - start)] == Encode(vals[start..end])
    ensures c.buffer[ValueAt(i, start)] == SplitHigh(vals[i]) && c.buffer[ValueAt(i, start) + 1] == SplitLow(vals[i])
  {
    hide Encode, SplitHigh, SplitLow;
    EncodeAt(vals[start..end], i - start);
    var values := c.buffer[INDEX_BYTE..INDEX_BYTE + 2 * (end - start)];
    assert c.buffer[ValueAt(i, start)] == values[2 * (i - start)];
    assert c.buffer[ValueAt(i, start) + 1] == values[2 * (i - start) + 1];
  }

  lemma {:induction false} SetSome(c: Conf, q: Request, i: nat, start: nat, end: nat, vals: seq<bv16>, h: Handler)
    requires Open(c) && HasSection(c.layout, q.block, q.section) && c.enabled
    requires start <= i <= end <= start + PARAMS_PER_MESSAGE && end <= |vals|
    requires q.wish == WISH_SET && q.amount == AMOUNT_ALL && FourteenBit(vals)
    requires c.buffer[INDEX_BYTE..INDEX_BYTE + 2 * (end - start)] == Encode(vals[start..end])
    ensures
      var o := SetUntil(c.log, SectionOf(c, q), c.ignoreErrors, q.block, q.section, vals, i, end, h);
      var d := c.(log := o.log);
      Values(c, q, i, start, end, h) == (if o.complete then d else SetStatus(d, o.status), o.complete)
    decreases end - i
  {
    hide SetStep, GetStep, SplitHigh, SplitLow, Encode, InRange, SetStatus, ValueAt;
    if i < end {
      ValueBytes(c, i, start, end, vals);
      SetOne(c, q, i, start, vals[i], h);
      SetSome(Called(c, Set(q.block, q.section, i, vals[i])), q, i + 1, start, end, vals, h);
    }
  }

  /** The status of an outcome is a data byte, and 1 if all values were set. */
  lemma {:induction false} OutcomeStatus(
      log: seq<Event>, section: Section, ignore: bool, b: nat, s: nat, vals: seq<bv16>, i: nat, end: nat, h: Handler)
    requires end <= |vals|
    ensures
      var o := SetUntil(log, section, ignore, b, s, vals, i, end, h);
      o.status & 0x7F == o.status && (o.complete ==> o.status == 0x01)
    decreases end - i
  {
    hide InRange;
    if i < end {
      var now := log + [Event(Set(b, s, i, vals[i]), true)];
      OutcomeStatus(now, section, ignore, b, s, vals, i + 1, end, h);
      MaskTwice(h(now).status);
    }
  }

  lemma SomeProcessed(c: Conf, q: Request, vals: seq<bv16>, h: Handler)
    requires HasSection(c.layout, q.block, q.section) && SectionOf(c, q).count == |vals| && c.enabled
    requires q == Request(WISH_SET, AMOUNT_ALL, q.block, q.section, q.part, 0, 0) && q.part < 126
    requires PARAMS_PER_MESSAGE * q.part < |vals|
    requires Open(c) && c.counter == INDEX_BYTE + 2 * |PartValues(vals, q.part)|
    requires c.buffer[..INDEX_BYTE] == Header(c.id, ACK, q.part, WISH_SET, q.block, q.section)
    requires c.buffer[INDEX_BYTE..c.counter] == Encode(PartValues(vals, q.part)) && FourteenBit(vals)
    ensures
      var (r, ok) := ProcessStandard(c, q, c.counter + 1, h);
      var a := if ok then r else SendResponse(r);
      var o := SetUntil(c.log, SectionOf(c, q), c.ignoreErrors, q.block, q.section, vals,
                        PARAMS_PER_MESSAGE * q.part, PartEnd(|vals|, q.part), h);
      && SameSession(c, a) && a.log == o.log
      && a.frames == c.frames + [Frame(c.id, o.status, q.part, WISH_SET, q.block, q.section, PartValues(vals, q.part))]
  {
    hide Header, Encode, Values, SendResponse, FourteenBit, SetUntil, SetStatus;
    var start := PARAMS_PER_MESSAGE * q.part;
    var end := EndIndex(SectionOf(c, q), q);
    var section := SectionOf(c, q);
    SetSome(c, q, start, start, end, vals, h);
    OutcomeStatus(c.log, section, c.ignoreErrors, q.block, q.section, vals, start, end, h);
    var o := SetUntil(c.log, section, c.ignoreErrors, q.block, q.section, vals, start, end, h);
    var d := c.(log := o.log);
    var header, values := Header(c.id, ACK, q.part, WISH_SET, q.block, q.section), Encode(PartValues(vals, q.part));
    assert c.buffer[..c.counter] == c.buffer[..INDEX_BYTE] + c.buffer[INDEX_BYTE..c.counter];
    if o.complete {
      Sending(d, header, values);
      OnePart(c, q, h);
    } else {
      OutcomeFrame(d, q, o.status, values);
      OnePartStopped(c, q, h);
    }
  }

  /** The frame with the status that stopped it. */
  lemma OutcomeFrame(d: Conf, q: Request, status: bv8, values: seq<bv8>)
    requires Open(d) && d.counter == INDEX_BYTE + |values| && status & 0x7F == status
    requires d.buffer[..INDEX_BYTE] == Header(d.id, ACK, q.part, WISH_SET, q.block, q.section)
    requires d.buffer[INDEX_BYTE..d.counter] == values
    ensures
      var r := SendResponse(SetStatus(d, status));
      && SameSession(d, r) && r.log == d.log
      && r.frames == d.frames + [Header(d.id, status, q.part, WISH_SET, q.block, q.section) + values + [SYS_EX_END]]
  {
    hide Header, SendResponse, SetStatus;
    var e := SetStatus(d, status);
    StatusKeeps(d, status);
    HeaderStatus(d, ACK, q.part, WISH_SET, q.block, q.section, status);
    StatusOnly(d, status);
    assert e.buffer[INDEX_BYTE..d.counter] == e.buffer[INDEX_BYTE..][..|values|] ==
           d.buffer[INDEX_BYTE..][..|values|] == values;
    assert e.buffer[..d.counter] == e.buffer[..INDEX_BYTE] + e.buffer[INDEX_BYTE..d.counter];
    Sending(e, Header(d.id, status, q.part, WISH_SET, q.block, q.section), values);
  }

  /** A message that is stopped ends the loop over parts. */
  lemma OnePartStopped(c: Conf, q: Request, h: Handler)
    requires Open(c) && HasSection(c.layout, q.block, q.section) && q.wish == WISH_SET
    ensures
      var start := FirstIndex(q);
      var (e, ok) := Values(c, q, start, start, EndIndex(SectionOf(c, q), q), h);
      !ok ==> ProcessStandard(c, q, c.counter + 1, h) == (e, false)
  {
    hide Values, SendResponse;
    assert c.(counter := c.counter) == c;
  }

  /**
   SET of one part, whatever the values and the handler: they are set one by one until one is out of range or
   refused, those before it stay set, and the frame comes back with the status of the one that stopped it.
   */
  lemma SetPart(c: Conf, b: nat, s: nat, part: nat, vals: seq<bv16>, h: Handler)
    requires HasSection(c.layout, b, s) && c.layout[b][s].count == |vals| && 1 <= |vals| <= 4032
    requires part < Parts(c.layout[b][s]) && b < 0x80 && s < 0x80 && FourteenBit(vals)
    requires PARAMS_PER_MESSAGE * part < |vals|
    requires Received(c, Frame(c.id, REQUEST, part, WISH_SET, b, s, PartValues(vals, part))) && c.enabled
    ensures
      var r := HandleRequest(c, h);
      var o := SetUntil(c.log, c.layout[b][s], c.ignoreErrors, b, s, vals,
                        PARAMS_PER_MESSAGE * part, PartEnd(|vals|, part), h);
      && SameSession(c, r) && r.log == o.log
      && r.frames == c.frames + [Frame(c.id, o.status, part, WISH_SET, b, s, PartValues(vals, part))]
  {
    hide Header, Encode, Parts, SetStatus, Decode, ProcessStandard, FourteenBit, Frame, SetUntil, IdMatches, PartValues,
         SendResponse;
    FrameDecoded(c, b, s, part, vals);
    var e := SetStatus(c.(counter := c.counter - 1), ACK);
    SomeProcessed(e, SetRequest(b, s, part), vals, h);
  }
}
