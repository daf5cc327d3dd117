/** Backups replay: the frames that answer BACKUP, sent back, set every parameter to the value it had. */
module SysExBackup {
  import opened Prelude
  import opened MidiUmp
  import MidiCodec
  import opened SysExModel

  // ---------------------------------------------------------------- frames

  function Encode(vs: seq<bv16>): (r: seq<bv8>)
    ensures |r| == 2 * |vs|
    decreases |vs|
  {
    if vs == [] then [] else [SplitHigh(vs[0]), SplitLow(vs[0])] + Encode(vs[1..])
  }

  lemma {:induction false} EncodeAt(vs: seq<bv16>, k: nat)
    requires k < |vs|
    ensures Encode(vs)[2 * k] == SplitHigh(vs[k]) && Encode(vs)[2 * k + 1] == SplitLow(vs[k])
    decreases |vs|
  {
    hide SplitHigh, SplitLow;
    if k > 0 {
      EncodeAt(vs[1..], k - 1);
      assert vs[1..][k - 1] == vs[k];
    }
  }

  lemma {:induction false} EncodeSevenBit(vs: seq<bv16>)
    ensures SevenBit(Encode(vs))
    decreases |vs|
  {
    hide SplitHigh, SplitLow;
    if vs != [] {
      MergeSplit(vs[0]);
      EncodeSevenBit(vs[1..]);
    }
  }

  /** The ten bytes before the values. */
  function Header(id: Id, status: bv8, part: nat, wish: bv8, b: nat, s: nat): (r: seq<bv8>)
    ensures |r| == INDEX_BYTE && r[0] == SYS_EX_START
  {
    [SYS_EX_START, id.id1, id.id2, id.id3, status, Byte8(part), wish, AMOUNT_ALL, Byte8(b), Byte8(s)]
  }

  /** A message for all values of one part. */
  function Frame(id: Id, status: bv8, part: nat, wish: bv8, b: nat, s: nat, vs: seq<bv16>): seq<bv8> {
    Header(id, status, part, wish, b, s) + Encode(vs) + [SYS_EX_END]
  }

  function PartEnd(n: nat, part: nat): nat {
    if PARAMS_PER_MESSAGE * part + PARAMS_PER_MESSAGE > n then n else PARAMS_PER_MESSAGE * part + PARAMS_PER_MESSAGE
  }

  /** The values that belong in a part. */
  function PartValues(vals: seq<bv16>, part: nat): seq<bv16>
    requires PARAMS_PER_MESSAGE * part <= |vals|
  {
    vals[PARAMS_PER_MESSAGE * part..PartEnd(|vals|, part)]
  }

  lemma PartsBound(s: Section, part: nat)
    requires 1 <= s.count <= 4032
    ensures 1 <= Parts(s) <= 126
    ensures PARAMS_PER_MESSAGE * (Parts(s) - 1) < s.count <= PARAMS_PER_MESSAGE * Parts(s)
    ensures part < Parts(s) <==> PARAMS_PER_MESSAGE * part < s.count
    ensures part < Parts(s) ==> (PartEnd(s.count, part) == s.count <==> part + 1 == Parts(s))
  {
  }

  // ---------------------------------------------------------------- the data handler

  /** Reads of a section's parameters are answered with `vals`. */
  ghost predicate Answers(h: Handler, b: nat, s: nat, vals: seq<bv16>) {
    forall log: seq<Event> {:trigger h(log)} ::
      log != [] && log[|log| - 1].call.Get? && log[|log| - 1].call.block == b && log[|log| - 1].call.section == s &&
      log[|log| - 1].call.index < |vals| ==>
        h(log).status == ACK && h(log).value == vals[log[|log| - 1].call.index]
  }

  /** Writes are accepted. */
  ghost predicate Accepts(h: Handler) {
    forall log: seq<Event> {:trigger h(log)} :: log != [] && log[|log| - 1].call.Set? ==> h(log).status == ACK
  }

  // ---------------------------------------------------------------- the backup

  /** The frames differ in nothing but what was sent and called. */
  predicate SameSession(c: Conf, r: Conf) {
    && r.enabled == c.enabled && r.ignoreErrors == c.ignoreErrors && r.layout == c.layout
    && r.customRequests == c.customRequests && r.id == c.id
  }

  lemma OneGet(c: Conf, q: Request, i: nat, vals: seq<bv16>, h: Handler)
    requires Open(c) && HasSection(c.layout, q.block, q.section) && HasRoom(c, 1)
    requires q.amount == AMOUNT_ALL && i < |vals| && Answers(h, q.block, q.section, vals)
    ensures
      var (r, ok) := GetStep(c, q, i, h);
      && ok && r.counter == c.counter + 2 && r.frames == c.frames && SameSession(c, r) && r.umpActive == c.umpActive
      && r.buffer[..r.counter] == c.buffer[..c.counter] + [SplitHigh(vals[i]), SplitLow(vals[i])]
  {
    hide SplitHigh, SplitLow;
    var d := Called(c, Get(q.block, q.section, i));
    assert d.log[|d.log| - 1] == Event(Get(q.block, q.section, i), c.enabled);
    assert h(d.log).status == ACK && h(d.log).value == vals[i];
  }

  /** Reading the values of a part appends them, in order, to the response. */
  lemma {:induction false} GetValues(c: Conf, q: Request, i: nat, start: nat, end: nat, vals: seq<bv16>, h: Handler)
    requires Open(c) && HasSection(c.layout, q.block, q.section)
    requires start <= i <= end <= start + PARAMS_PER_MESSAGE && end <= |vals|
    requires HasRoom(c, start + PARAMS_PER_MESSAGE - i)
    requires q.wish == WISH_GET && q.amount == AMOUNT_ALL && Answers(h, q.block, q.section, vals)
    ensures
      var (r, ok) := Values(c, q, i, start, end, h);
      && ok && r.counter == c.counter + 2 * (end - i) && r.frames == c.frames && SameSession(c, r)
      && r.buffer[..r.counter] == c.buffer[..c.counter] + Encode(vals[i..end])
    decreases end - i
  {
    hide GetStep, SetStep, SplitHigh, SplitLow, Answers;
    if i == end {
      assert c.buffer[..c.counter] + [] == c.buffer[..c.counter];
    } else {
      OneGet(c, q, i, vals, h);
      var d := GetStep(c, q, i, h).0;
      GetValues(d, q, i + 1, start, end, vals, h);
      assert vals[i..end][0] == vals[i] && vals[i..end][1..] == vals[i + 1..end];
      var two := [SplitHigh(vals[i]), SplitLow(vals[i])];
      assert (c.buffer[..c.counter] + two) + Encode(vals[i + 1..end]) ==
             c.buffer[..c.counter] + (two + Encode(vals[i + 1..end]));
    }
  }

  /** A SET message for each part from `j` on, or its acknowledgement. */
  function PartFrames(id: Id, status: bv8, b: nat, s: nat, vals: seq<bv16>, j: nat, parts: nat): (r: seq<seq<bv8>>)
    requires j < parts ==> PARAMS_PER_MESSAGE * (parts - 1) <= |vals|
    ensures |r| == if j < parts then parts - j else 0
    decreases parts - j
  {
    if j >= parts then []
    else [Frame(id, status, j, WISH_SET, b, s, PartValues(vals, j))] + PartFrames(id, status, b, s, vals, j + 1, parts)
  }

  /** The buffer starts with a header for these parameters. */
  ghost predicate Headed(c: Conf, status: bv8, wish: bv8, b: nat, s: nat)
    requires |c.buffer| == MAX_MESSAGE_SIZE
  {
    exists part: nat :: c.buffer[..INDEX_BYTE] == Header(c.id, status, part, wish, b, s)
  }

  lemma PartHeader(c: Conf, status: bv8, wish: bv8, b: nat, s: nat, part: nat)
    requires |c.buffer| == MAX_MESSAGE_SIZE && Headed(c, status, wish, b, s)
    ensures c.buffer[PART_BYTE := Byte8(part)][..INDEX_BYTE] == Header(c.id, status, part, wish, b, s)
  {
    hide Byte8;
    var was: nat :| c.buffer[..INDEX_BYTE] == Header(c.id, status, was, wish, b, s);
    var now := c.buffer[PART_BYTE := Byte8(part)];
    forall i | 0 <= i < INDEX_BYTE ensures now[i] == Header(c.id, status, part, wish, b, s)[i] {
      assert c.buffer[i] == c.buffer[..INDEX_BYTE][i];
    }
  }

  /** One part of the backup, sent. */
  lemma BackupPart(c: Conf, q: Request, part: nat, vals: seq<bv16>, h: Handler)
    requires |c.buffer| == MAX_MESSAGE_SIZE && HasSection(c.layout, q.block, q.section) && c.counter == INDEX_BYTE
    requires q.wish == WISH_GET && q.amount == AMOUNT_ALL && q.part == part && |vals| == SectionOf(c, q).count
    requires PARAMS_PER_MESSAGE * part < |vals| && Answers(h, q.block, q.section, vals)
    requires c.buffer[..INDEX_BYTE] == Header(c.id, REQUEST, part, WISH_SET, q.block, q.section)
    ensures
      var start := PARAMS_PER_MESSAGE * part;
      var (e, ok) := Values(c, q, start, start, EndIndex(SectionOf(c, q), q), h);
      var r := SendResponse(e);
      && ok && SameSession(c, r)
      && r.frames == c.frames + [Frame(c.id, REQUEST, part, WISH_SET, q.block, q.section, PartValues(vals, part))]
      && r.buffer[..INDEX_BYTE] == Header(c.id, REQUEST, part, WISH_SET, q.block, q.section)
  {
    hide Values, Encode, Header, Answers;
    var start := PARAMS_PER_MESSAGE * part;
    var end := EndIndex(SectionOf(c, q), q);
    var header := Header(c.id, REQUEST, part, WISH_SET, q.block, q.section);
    GetValues(c, q, start, start, end, vals, h);
    var e := Values(c, q, start, start, end, h).0;
    var sent := header + Encode(vals[start..end]) + [SYS_EX_END];
    Sending(e, header, Encode(vals[start..end]));
    assert vals[start..end] == PartValues(vals, part);
  }

  /** A complete response is sent as it stands in the buffer. */
  lemma Sending(e: Conf, header: seq<bv8>, rest: seq<bv8>)
    requires Open(e) && |header| == INDEX_BYTE && header[0] == SYS_EX_START && e.counter == INDEX_BYTE + |rest|
    requires e.buffer[..e.counter] == header + rest
    ensures
      var r := SendResponse(e);
      && r.frames == e.frames + [header + rest + [SYS_EX_END]] && SameSession(e, r) && r.log == e.log
      && r.buffer[..INDEX_BYTE] == header
  {
    var r := Push(e, SYS_EX_END);
    assert r.buffer[..r.counter] == e.buffer[..e.counter] + [SYS_EX_END];
    assert e.buffer[0] == e.buffer[..e.counter][0] == header[0];
    assert r.buffer[..INDEX_BYTE] == e.buffer[..e.counter][..INDEX_BYTE] == header;
  }

  lemma LoopStep(c: Conf, q: Request, j: nat, parts: nat, h: Handler)
    requires |c.buffer| == MAX_MESSAGE_SIZE && HasSection(c.layout, q.block, q.section) && j < parts
    ensures
      var d := c.(counter := INDEX_BYTE, buffer := c.buffer[PART_BYTE := Byte8(j)]);
      var p := q.(part := j);
      var (e, ok) := Values(d, p, FirstIndex(p), FirstIndex(p), EndIndex(SectionOf(d, p), p), h);
      ok ==>
        PartLoop(c, q, j, parts, true, INDEX_BYTE, h) == PartLoop(SendResponse(e), p, j + 1, parts, true, INDEX_BYTE, h)
  {
    hide Values, SendResponse, Byte8, EndIndex, FirstIndex;
  }

  lemma LoopEnd(c: Conf, q: Request, parts: nat, h: Handler)
    requires |c.buffer| == MAX_MESSAGE_SIZE && HasSection(c.layout, q.block, q.section)
    ensures PartLoop(c, q, parts, parts, true, INDEX_BYTE, h) == (c, true)
  {
  }

  /** All parts from `j` on. */
  lemma {:induction false} BackupParts(c: Conf, q: Request, j: nat, parts: nat, vals: seq<bv16>, h: Handler)
    requires |c.buffer| == MAX_MESSAGE_SIZE && HasSection(c.layout, q.block, q.section)
    requires q.wish == WISH_GET && q.amount == AMOUNT_ALL && |vals| == SectionOf(c, q).count
    requires j <= parts && PARAMS_PER_MESSAGE * (parts - 1) < |vals| && Answers(h, q.block, q.section, vals)
    requires Headed(c, REQUEST, WISH_SET, q.block, q.section)
    ensures
      var (r, ok) := PartLoop(c, q, j, parts, true, INDEX_BYTE, h);
      && ok && SameSession(c, r)
      && r.frames == c.frames + PartFrames(c.id, REQUEST, q.block, q.section, vals, j, parts)
    decreases parts - j
  {
    hide Values, Header, Answers, Frame, PartValues, Headed, SendResponse, PartLoop, Byte8, EndIndex;
    if j == parts {
      LoopEnd(c, q, parts, h);
      assert c.frames + [] == c.frames;
    } else {
      var d := c.(counter := INDEX_BYTE, buffer := c.buffer[PART_BYTE := Byte8(j)]);
      var p := q.(part := j);
      PartHeader(c, REQUEST, WISH_SET, q.block, q.section, j);
      BackupPart(d, p, j, vals, h);
      LoopStep(c, q, j, parts, h);
      var start := PARAMS_PER_MESSAGE * j;
      var e := Values(d, p, start, start, EndIndex(SectionOf(d, p), p), h).0;
      var r := SendResponse(e);
      StillHeaded(r, j, q.block, q.section);
      BackupParts(r, p, j + 1, parts, vals, h);
      var one := [Frame(c.id, REQUEST, j, WISH_SET, q.block, q.section, PartValues(vals, j))];
      assert (c.frames + one) + PartFrames(c.id, REQUEST, q.block, q.section, vals, j + 1, parts) ==
             c.frames + (one + PartFrames(c.id, REQUEST, q.block, q.section, vals, j + 1, parts));
    }
  }

  lemma StillHeaded(c: Conf, part: nat, b: nat, s: nat)
    requires |c.buffer| == MAX_MESSAGE_SIZE && c.buffer[..INDEX_BYTE] == Header(c.id, REQUEST, part, WISH_SET, b, s)
    ensures Headed(c, REQUEST, WISH_SET, b, s)
  {
  }

  // ---------------------------------------------------------------- the request

  /** The message that asks for a backup of a whole section, all parts. */
  function BackupRequest(id: Id, b: nat, s: nat): (r: seq<bv8>)
    ensures |r| == STD_REQ_MIN_MSG_SIZE
  {
    Header(id, REQUEST, PART_ALL_MESSAGES, WISH_BACKUP, b, s) + [0, 0, 0, 0] + [SYS_EX_END]
  }

  /** `message` has been received. */
  predicate Received(c: Conf, message: seq<bv8>) {
    Ready(c) && c.counter == |message| && c.buffer[..c.counter] == message
  }

  /** Where the pieces of a received message are. */
  lemma Pieces(c: Conf, header: seq<bv8>, rest: seq<bv8>)
    requires |header| == INDEX_BYTE && header[0] == SYS_EX_START && Received(c, header + rest + [SYS_EX_END])
    ensures c.counter == INDEX_BYTE + |rest| + 1 && c.buffer[..INDEX_BYTE] == header
    ensures c.buffer[INDEX_BYTE..c.counter - 1] == rest
    ensures c.buffer[0] == SYS_EX_START && c.buffer[c.counter - 1] == SYS_EX_END
  {
    var message := header + rest + [SYS_EX_END];
    forall i | 0 <= i < |message| ensures c.buffer[i] == message[i] {
      assert c.buffer[i] == c.buffer[..c.counter][i];
    }
  }

  /** What a header in the buffer decodes to. */
  lemma HeaderFields(c: Conf, status: bv8, part: nat, wish: bv8, b: nat, s: nat)
    requires |c.buffer| == MAX_MESSAGE_SIZE && c.buffer[..INDEX_BYTE] == Header(c.id, status, part, wish, b, s)
    requires part < 0x100 && b < 0x100 && s < 0x100
    ensures Fields(c) == Request(wish, AMOUNT_ALL, b, s, part, 0, 0)
    ensures IdMatches(c) && c.buffer[STATUS_BYTE] == status && c.buffer[0] == SYS_EX_START
  {
    hide Byte8, Num, Header;
    NumOfByte(part);
    NumOfByte(b);
    NumOfByte(s);
    HeaderBytes(c.buffer, c.id, status, part, wish, b, s);
  }

  lemma HeaderBytes(buffer: seq<bv8>, id: Id, status: bv8, part: nat, wish: bv8, b: nat, s: nat)
    requires |buffer| == MAX_MESSAGE_SIZE && buffer[..INDEX_BYTE] == Header(id, status, part, wish, b, s)
    ensures buffer[0] == SYS_EX_START && buffer[1] == id.id1 && buffer[2] == id.id2 && buffer[3] == id.id3
    ensures buffer[STATUS_BYTE] == status && buffer[PART_BYTE] == Byte8(part) && buffer[WISH_BYTE] == wish
    ensures buffer[AMOUNT_BYTE] == AMOUNT_ALL && buffer[BLOCK_BYTE] == Byte8(b) && buffer[SECTION_BYTE] == Byte8(s)
  {
    hide Byte8;
    var h := Header(id, status, part, wish, b, s);
    assert forall i :: 0 <= i < INDEX_BYTE ==> buffer[i] == buffer[..INDEX_BYTE][i] == h[i];
  }

  /** A status written over the one in a header. */
  lemma HeaderStatus(c: Conf, status: bv8, part: nat, wish: bv8, b: nat, s: nat, now: bv8)
    requires |c.buffer| == MAX_MESSAGE_SIZE && c.buffer[..INDEX_BYTE] == Header(c.id, status, part, wish, b, s)
    requires now & 0x7F == now
    ensures SetStatus(c, now).buffer[..INDEX_BYTE] == Header(c.id, now, part, wish, b, s)
  {
    hide Byte8;
    var r := SetStatus(c, now).buffer;
    forall i | 0 <= i < INDEX_BYTE ensures r[i] == Header(c.id, now, part, wish, b, s)[i] {
      assert c.buffer[i] == c.buffer[..INDEX_BYTE][i];
    }
  }

  /** A request that is decoded goes on to be processed. */
  lemma Accepted(c: Conf, status: bv8, part: nat, wish: bv8, b: nat, s: nat, size: nat)
    requires Open(c) && c.enabled && size == c.counter + 1 && size >= STD_REQ_MIN_MSG_SIZE - BYTES_PER_VALUE
    requires c.buffer[..INDEX_BYTE] == Header(c.id, status, part, wish, b, s) && part < 0x100 && b < 0x100 && s < 0x100
    requires HasSection(c.layout, b, s) && wish <= WISH_BACKUP
    requires
      var q := Request(wish, AMOUNT_ALL, b, s, part, 0, 0);
      PartOk(c.layout[b][s], q) && size == MessageLength(c.layout[b][s], q)
    ensures Decode(c, size) == (SetStatus(c, ACK), Some(Request(wish, AMOUNT_ALL, b, s, part, 0, 0)))
  {
    hide Header, Fields, MessageLength, PartOk;
    HeaderFields(c, status, part, wish, b, s);
  }

  /** Answering a backup request sends one frame for every part, with the values read. */
  lemma BackupAnswered(c: Conf, b: nat, s: nat, vals: seq<bv16>, h: Handler)
    requires Received(c, BackupRequest(c.id, b, s)) && c.enabled && b < 0x80 && s < 0x80
    requires HasSection(c.layout, b, s) && c.layout[b][s].count == |vals| && 1 <= |vals| <= 4032
    requires Answers(h, b, s, vals)
    ensures
      var r := HandleRequest(c, h);
      && SameSession(c, r)
      && PARAMS_PER_MESSAGE * (Parts(c.layout[b][s]) - 1) < |vals|
      && r.frames == c.frames + PartFrames(c.id, REQUEST, b, s, vals, 0, Parts(c.layout[b][s]))
  {
    hide Header, PartLoop, Parts, Answers, Decode, SetStatus;
    var size := STD_REQ_MIN_MSG_SIZE;
    var d := c.(counter := size - 1);
    var q := Request(WISH_BACKUP, AMOUNT_ALL, b, s, PART_ALL_MESSAGES, 0, 0);
    var header := Header(c.id, REQUEST, PART_ALL_MESSAGES, WISH_BACKUP, b, s);
    Pieces(c, header, [0, 0, 0, 0]);
    HeaderFields(d, REQUEST, PART_ALL_MESSAGES, WISH_BACKUP, b, s);
    Accepted(d, REQUEST, PART_ALL_MESSAGES, WISH_BACKUP, b, s, size);
    HeaderStatus(d, REQUEST, PART_ALL_MESSAGES, WISH_BACKUP, b, s, ACK);
    var e := SetStatus(d, ACK);
    StatusKeeps(d, ACK);
    BackupProcessed(e, q, vals, h);
  }

  lemma StatusKeeps(c: Conf, status: bv8)
    requires |c.buffer| == MAX_MESSAGE_SIZE
    ensures SetStatus(c, status) == c.(buffer := SetStatus(c, status).buffer)
  {
  }

  lemma BackupProcessed(c: Conf, q: Request, vals: seq<bv16>, h: Handler)
    requires Open(c) && c.counter == STD_REQ_MIN_MSG_SIZE - 1
    requires q == Request(WISH_BACKUP, AMOUNT_ALL, q.block, q.section, PART_ALL_MESSAGES, 0, 0)
    requires HasSection(c.layout, q.block, q.section) && SectionOf(c, q).count == |vals| && 1 <= |vals| <= 4032
    requires c.buffer[..INDEX_BYTE] == Header(c.id, ACK, PART_ALL_MESSAGES, WISH_BACKUP, q.block, q.section)
    requires Answers(h, q.block, q.section, vals)
    ensures
      var (r, ok) := ProcessStandard(c, q, STD_REQ_MIN_MSG_SIZE, h);
      && ok && SameSession(c, r)
      && PARAMS_PER_MESSAGE * (Parts(SectionOf(c, q)) - 1) < |vals|
      && r.frames == c.frames + PartFrames(c.id, REQUEST, q.block, q.section, vals, 0, Parts(SectionOf(c, q)))
  {
    hide PartLoop, Parts, Answers;
    var parts := Parts(SectionOf(c, q));
    PartsBound(SectionOf(c, q), 0);
    var d := c.(buffer := c.buffer[STATUS_BYTE := REQUEST][WISH_BYTE := WISH_SET]);
    ToSet(c, q.block, q.section);
    BackupParts(d, q.(wish := WISH_GET), 0, parts, vals, h);
  }

  /** The header of the request becomes the header of a SET request. */
  lemma ToSet(c: Conf, b: nat, s: nat)
    requires |c.buffer| == MAX_MESSAGE_SIZE
    requires c.buffer[..INDEX_BYTE] == Header(c.id, ACK, PART_ALL_MESSAGES, WISH_BACKUP, b, s)
    ensures Headed(c.(buffer := c.buffer[STATUS_BYTE := REQUEST][WISH_BYTE := WISH_SET]), REQUEST, WISH_SET, b, s)
  {
    hide Byte8;
    var now := c.buffer[STATUS_BYTE := REQUEST][WISH_BYTE := WISH_SET];
    var header := Header(c.id, REQUEST, PART_ALL_MESSAGES, WISH_SET, b, s);
    forall i | 0 <= i < INDEX_BYTE ensures now[i] == header[i] {
      assert c.buffer[i] == c.buffer[..INDEX_BYTE][i];
    }
    assert now[..INDEX_BYTE] == header;
  }

  // ---------------------------------------------------------------- the replay

  /** The calls that set the parameters from `i` to `end` to their values. */
  function SetEvents(b: nat, s: nat, vals: seq<bv16>, i: nat, end: nat): (r: seq<Event>)
    requires end <= |vals|
    ensures |r| == if i < end then end - i else 0
    decreases end - i
  {
    if i >= end then [] else [Event(Set(b, s, i, vals[i]), true)] + SetEvents(b, s, vals, i + 1, end)
  }

  lemma {:induction false} SetEventsJoin(b: nat, s: nat, vals: seq<bv16>, i: nat, mid: nat, end: nat)
    requires i <= mid <= end <= |vals|
    ensures SetEvents(b, s, vals, i, mid) + SetEvents(b, s, vals, mid, end) == SetEvents(b, s, vals, i, end)
    decreases mid - i
  {
    if i < mid {
      SetEventsJoin(b, s, vals, i + 1, mid, end);
      var first := [Event(Set(b, s, i, vals[i]), true)];
      assert (first + SetEvents(b, s, vals, i + 1, mid)) + SetEvents(b, s, vals, mid, end) ==
             first + (SetEvents(b, s, vals, i + 1, mid) + SetEvents(b, s, vals, mid, end));
    } else {
      assert [] + SetEvents(b, s, vals, mid, end) == SetEvents(b, s, vals, mid, end);
    }
  }

  /** Values that fit fourteen bits and their section. */
  predicate Settable(section: Section, vals: seq<bv16>) {
    forall i :: 0 <= i < |vals| ==> vals[i] & 0x3FFF == vals[i] && NewValueOk(section, vals[i])
  }

  lemma OneSet(c: Conf, q: Request, i: nat, start: nat, vals: seq<bv16>, h: Handler)
    requires Open(c) && HasSection(c.layout, q.block, q.section) && start <= i < start + PARAMS_PER_MESSAGE
    requires q.amount == AMOUNT_ALL && i < |vals| && Accepts(h) && Settable(SectionOf(c, q), vals)
    requires c.buffer[ValueAt(i, start)] == SplitHigh(vals[i]) && c.buffer[ValueAt(i, start) + 1] == SplitLow(vals[i])
    ensures SetStep(c, q, i, start, h) == (Called(c, Set(q.block, q.section, i, vals[i])), true)
  {
    hide SplitHigh, SplitLow, Merge, NewValueOk;
    MergeSplit(vals[i]);
    assert vals[i] & 0x3FFF == vals[i];
    var d := Called(c, Set(q.block, q.section, i, vals[i]));
    assert d.log[|d.log| - 1] == Event(Set(q.block, q.section, i, vals[i]), c.enabled);
    assert h(d.log).status == ACK;
  }

  /** Setting the values of a part calls the handler once for each, in order. */
  lemma {:induction false} SetValues(c: Conf, q: Request, i: nat, start: nat, end: nat, vals: seq<bv16>, h: Handler)
    requires Open(c) && HasSection(c.layout, q.block, q.section) && c.enabled
    requires start <= i <= end <= start + PARAMS_PER_MESSAGE && end <= |vals|
    requires q.wish == WISH_SET && q.amount == AMOUNT_ALL && Accepts(h) && Settable(SectionOf(c, q), vals)
    requires c.buffer[INDEX_BYTE..INDEX_BYTE + 2 * (end - start)] == Encode(vals[start..end])
    ensures
      Values(c, q, i, start, end, h) == (c.(log := c.log + SetEvents(q.block, q.section, vals, i, end)), true)
    decreases end - i
  {
    hide SetStep, GetStep, SplitHigh, SplitLow, Encode, Settable, Accepts;
    if i == end {
      assert c.log + [] == c.log;
    } else {
      EncodeAt(vals[start..end], i - start);
      var values := c.buffer[INDEX_BYTE..INDEX_BYTE + 2 * (end - start)];
      assert c.buffer[ValueAt(i, start)] == values[2 * (i - start)];
      assert c.buffer[ValueAt(i, start) + 1] == values[2 * (i - start) + 1];
      OneSet(c, q, i, start, vals, h);
      var d := Called(c, Set(q.block, q.section, i, vals[i]));
      SetValues(d, q, i + 1, start, end, vals, h);
      var first := [Event(Set(q.block, q.section, i, vals[i]), true)];
      var more := SetEvents(q.block, q.section, vals, i + 1, end);
      assert (c.log + first) + more == c.log + (first + more);
    }
  }

  /** The length of a frame is the one a SET request for that part must have. */
  lemma FrameLength(section: Section, part: nat, b: nat, s: nat, id: Id, vals: seq<bv16>)
    requires section.count == |vals| && 1 <= |vals| <= 4032 && part < Parts(section)
    ensures PARAMS_PER_MESSAGE * part < |vals|
    ensures
      var q := Request(WISH_SET, AMOUNT_ALL, b, s, part, 0, 0);
      && PartOk(section, q)
      && |Frame(id, REQUEST, part, WISH_SET, b, s, PartValues(vals, part))| == MessageLength(section, q)
      && 13 <= MessageLength(section, q) <= MAX_MESSAGE_SIZE
  {
    hide Parts, Header, Encode;
    PartsBound(section, part);
  }

  /** The request a SET frame of all values of a part stands for. */
  function SetRequest(b: nat, s: nat, part: nat): Request {
    Request(WISH_SET, AMOUNT_ALL, b, s, part, 0, 0)
  }

  /** The buffer after a frame of the backup has been received and decoded, its end byte cut off. */
  ghost predicate Decoded(c: Conf, e: Conf, b: nat, s: nat, part: nat, vals: seq<bv16>)
    requires PARAMS_PER_MESSAGE * part <= |vals|
  {
    && c.counter > 0 && e == c.(counter := c.counter - 1, buffer := e.buffer)
    && |e.buffer| == MAX_MESSAGE_SIZE && Open(e) && |PartValues(vals, part)| <= PARAMS_PER_MESSAGE
    && e.counter == INDEX_BYTE + 2 * |PartValues(vals, part)|
    && e.buffer[..INDEX_BYTE] == Header(c.id, ACK, part, WISH_SET, b, s)
    && e.buffer[INDEX_BYTE..e.counter] == Encode(PartValues(vals, part))
  }

  lemma FrameDecoded(c: Conf, b: nat, s: nat, part: nat, vals: seq<bv16>)
    requires HasSection(c.layout, b, s) && c.layout[b][s].count == |vals| && 1 <= |vals| <= 4032
    requires part < Parts(c.layout[b][s]) && b < 0x80 && s < 0x80 && PARAMS_PER_MESSAGE * part < |vals|
    requires Received(c, Frame(c.id, REQUEST, part, WISH_SET, b, s, PartValues(vals, part))) && c.enabled
    ensures
      var size := c.counter;
      var d := c.(counter := size - 1);
      var e := SetStatus(d, ACK);
      && 13 <= size <= MAX_MESSAGE_SIZE && c.buffer[0] == SYS_EX_START && c.buffer[size - 1] == SYS_EX_END
      && Open(d) && IdMatches(d) && d.buffer[STATUS_BYTE] == REQUEST && part < 126
      && Decode(d, size) == (e, Some(SetRequest(b, s, part)))
      && Decoded(c, e, b, s, part, vals)
  {
    hide Header, Encode, Parts, MessageLength, PartOk, SetStatus, Decode, Fields, IdMatches, PartValues;
    FrameLength(c.layout[b][s], part, b, s, c.id, vals);
    PartsBound(c.layout[b][s], part);
    var size := c.counter;
    var d := c.(counter := size - 1);
    ValuesLength(vals, part);
    Pieces(c, Header(c.id, REQUEST, part, WISH_SET, b, s), Encode(PartValues(vals, part)));
    HeaderFields(d, REQUEST, part, WISH_SET, b, s);
    Accepted(d, REQUEST, part, WISH_SET, b, s, size);
    HeaderStatus(d, REQUEST, part, WISH_SET, b, s, ACK);
    StatusKeeps(d, ACK);
    StatusOnly(d, ACK);
    var e := SetStatus(d, ACK);
    assert e.buffer[INDEX_BYTE..size - 1] == e.buffer[INDEX_BYTE..][..size - 1 - INDEX_BYTE];
    assert c.buffer[INDEX_BYTE..size - 1] == c.buffer[INDEX_BYTE..][..size - 1 - INDEX_BYTE];
  }

  lemma ValuesLength(vals: seq<bv16>, part: nat)
    requires PARAMS_PER_MESSAGE * part <= |vals|
    ensures |Encode(PartValues(vals, part))| == 2 * |PartValues(vals, part)| <= 2 * PARAMS_PER_MESSAGE
  {
  }

  /** A frame of the backup, received, sets the parameters of its part and is acknowledged. */
  lemma PartReplayed(c: Conf, b: nat, s: nat, part: nat, id: Id, vals: seq<bv16>, h: Handler)
    requires HasSection(c.layout, b, s) && c.layout[b][s].count == |vals| && 1 <= |vals| <= 4032
    requires part < Parts(c.layout[b][s]) && b < 0x80 && s < 0x80 && id == c.id
    requires PARAMS_PER_MESSAGE * part < |vals|
    requires Received(c, Frame(id, REQUEST, part, WISH_SET, b, s, PartValues(vals, part))) && c.enabled
    requires Accepts(h) && Settable(c.layout[b][s], vals)
    ensures
      var r := HandleRequest(c, h);
      && SameSession(c, r)
      && r.log == c.log + SetEvents(b, s, vals, PARAMS_PER_MESSAGE * part, PartEnd(|vals|, part))
      && r.frames == c.frames + [Frame(id, ACK, part, WISH_SET, b, s, PartValues(vals, part))]
  {
    hide Header, Encode, Parts, SetStatus, Decode, ProcessStandard, Settable, Accepts, Frame, SetEvents, IdMatches,
         PartValues;
    FrameDecoded(c, b, s, part, vals);
    var e := SetStatus(c.(counter := c.counter - 1), ACK);
    SetProcessed(e, SetRequest(b, s, part), vals, h);
  }

  lemma StatusOnly(c: Conf, status: bv8)
    requires |c.buffer| == MAX_MESSAGE_SIZE
    ensures SetStatus(c, status).buffer[INDEX_BYTE..] == c.buffer[INDEX_BYTE..]
  {
  }

  lemma SetProcessed(c: Conf, q: Request, vals: seq<bv16>, h: Handler)
    requires HasSection(c.layout, q.block, q.section) && SectionOf(c, q).count == |vals| && c.enabled
    requires q == Request(WISH_SET, AMOUNT_ALL, q.block, q.section, q.part, 0, 0) && q.part < 126
    requires PARAMS_PER_MESSAGE * q.part < |vals|
    requires Open(c) && c.counter == INDEX_BYTE + 2 * |PartValues(vals, q.part)|
    requires c.buffer[..INDEX_BYTE] == Header(c.id, ACK, q.part, WISH_SET, q.block, q.section)
    requires c.buffer[INDEX_BYTE..c.counter] == Encode(PartValues(vals, q.part))
    requires Accepts(h) && Settable(SectionOf(c, q), vals)
    ensures
      var (r, ok) := ProcessStandard(c, q, c.counter + 1, h);
      && ok && SameSession(c, r)
      && r.log == c.log + SetEvents(q.block, q.section, vals, PARAMS_PER_MESSAGE * q.part, PartEnd(|vals|, q.part))
      && r.frames == c.frames + [Frame(c.id, ACK, q.part, WISH_SET, q.block, q.section, PartValues(vals, q.part))]
  {
    hide Header, Encode, Values, SendResponse, Settable, Accepts;
    var start := PARAMS_PER_MESSAGE * q.part;
    var end := EndIndex(SectionOf(c, q), q);
    SetValues(c, q, start, start, end, vals, h);
    var e := c.(log := c.log + SetEvents(q.block, q.section, vals, start, end));
    var header, values := Header(c.id, ACK, q.part, WISH_SET, q.block, q.section), Encode(PartValues(vals, q.part));
    assert c.buffer[..c.counter] == c.buffer[..INDEX_BYTE] + c.buffer[INDEX_BYTE..c.counter];
    Sending(e, header, values);
    OnePart(c, q, h);
  }

  /** With a single part, the loop over parts is one message. */
  lemma OnePart(c: Conf, q: Request, h: Handler)
    requires Open(c) && HasSection(c.layout, q.block, q.section) && q.wish == WISH_SET
    ensures
      var start := FirstIndex(q);
      var (e, ok) := Values(c, q, start, start, EndIndex(SectionOf(c, q), q), h);
      ok ==> ProcessStandard(c, q, c.counter + 1, h) == (SendResponse(e), true)
  {
    hide Values, SendResponse;
    assert c.(counter := c.counter) == c;
    var start := FirstIndex(q);
    var (e, ok) := Values(c, q, start, start, EndIndex(SectionOf(c, q), q), h);
    if ok {
      var sent := SendResponse(e);
      assert PartLoop(sent, q, 1, 1, false, c.counter, h) == (sent, true);
      assert PartLoop(c, q, 0, 1, false, c.counter, h) == (sent, true);
    }
  }

  // ---------------------------------------------------------------- packet by packet

  lemma LanesAre(u: Ump, chunk: seq<bv8>)
    requires |chunk| <= 6 && forall i :: 0 <= i < |chunk| ==> ReadLane(u, i) == chunk[i]
    ensures Lanes(u, |chunk|) == chunk
  {
  }

  /** The state in which `received` has come in of a message, all else as in `c`. */
  predicate Receiving(c: Conf, d: Conf, received: seq<bv8>) {
    && Ready(d) && d.umpActive && d.counter == |received| && d.buffer[..d.counter] == received
    && SameSession(c, d) && d.log == c.log && d.frames == c.frames
  }

  /** One packet of a chain. */
  lemma OnePacket(c: Conf, d: Conf, received: seq<bv8>, status: SysExStatus, chunk: seq<bv8>, h: Handler)
    requires Ready(d) && SameSession(c, d) && d.log == c.log && d.frames == c.frames
    requires |chunk| <= 6 && SevenBit(chunk) && |received| + |chunk| < MAX_MESSAGE_SIZE
    requires if StartsMessage(status) then received == [SYS_EX_START] else Receiving(c, d, received)
    ensures
      var u := SysExPacket(0, status, chunk);
      exists e ::
        Receiving(c, e, received + chunk) && HandlePacket(d, u, h) == if EndsMessage(status) then Ended(e, h) else e
  {
    hide Ended, SysExPacket, Lanes, IsSysEx7Packet, SysExStatusOf;
    var u := SysExPacket(0, status, chunk);
    SysExPacketFields(0, status, chunk);
    LanesAre(u, chunk);
    var b := Begun(d, status);
    assert Receiving(c, b, received);
    assert Receiving(c, Taken(b, u, |chunk|), received + chunk);
  }

  /** The rest of a message, packet by packet. */
  lemma {:induction false} FeedRest(
      c: Conf, d: Conf, received: seq<bv8>, rest: seq<bv8>, first: bool, h: Handler)
    requires Ready(d) && SameSession(c, d) && d.log == c.log && d.frames == c.frames
    requires SevenBit(rest) && |received| + |rest| < MAX_MESSAGE_SIZE
    requires if first then received == [SYS_EX_START] else Receiving(c, d, received)
    ensures
      exists e ::
        Receiving(c, e, received + rest) &&
        HandlePackets(d, MidiCodec.Chain(0, rest, first), h) == Ended(e, h)
    decreases |rest|
  {
    hide Ended, SysExPacket, Receiving, HandlePacket;
    var us := MidiCodec.Chain(0, rest, first);
    if |rest| <= 6 {
      var status := if first then Complete else End;
      OnePacket(c, d, received, status, rest, h);
      var u := SysExPacket(0, status, rest);
      assert us == [u] && us[1..] == [];
      assert HandlePackets(d, us, h) == HandlePacket(d, u, h);
    } else {
      var chunk := rest[..6];
      var status := if first then Begin else Middle;
      OnePacket(c, d, received, status, chunk, h);
      var u := SysExPacket(0, status, chunk);
      var e :| Receiving(c, e, received + chunk) && HandlePacket(d, u, h) == e;
      StillReady(c, e, received + chunk);
      FeedRest(c, e, received + chunk, rest[6..], false, h);
      assert us[0] == u && us[1..] == MidiCodec.Chain(0, rest[6..], false);
      assert (received + chunk) + rest[6..] == received + rest;
    }
  }

  lemma StillReady(c: Conf, e: Conf, received: seq<bv8>)
    requires Receiving(c, e, received)
    ensures Ready(e) && SameSession(c, e) && e.log == c.log && e.frames == c.frames
  {
  }

  /**
   A message of data bytes between F0 and F7, sent packet by packet, is handled as one request, whatever
   was being received before.
   */
  lemma MessageDelivered(c: Conf, payload: seq<bv8>, h: Handler)
    requires Ready(c) && SevenBit(payload) && |payload| + 2 <= MAX_MESSAGE_SIZE
    ensures
      exists d ::
        && Received(d, [SYS_EX_START] + payload + [SYS_EX_END])
        && SameSession(c, d) && d.log == c.log && d.frames == c.frames
        && HandlePackets(c, MidiCodec.Chain(0, payload), h) == ResetUmp(HandleRequest(d, h))
  {
    hide HandlePackets, HandleRequest, Received, SameSession, Push;
    SameItself(c);
    FeedRest(c, c, [SYS_EX_START], payload, true, h);
    var e :| Receiving(c, e, [SYS_EX_START] + payload) &&
      HandlePackets(c, MidiCodec.Chain(0, payload, true), h) == Ended(e, h);
    EndReceived(c, e, [SYS_EX_START] + payload);
    var d := Push(e, SYS_EX_END).(umpActive := false);
    assert Received(d, [SYS_EX_START] + payload + [SYS_EX_END]);
    assert Ended(e, h) == ResetUmp(HandleRequest(Push(e, SYS_EX_END).(umpActive := false), h));
  }

  lemma SameItself(c: Conf)
    ensures SameSession(c, c)
  {
  }

  /** The end byte completes a message. */
  lemma EndReceived(c: Conf, e: Conf, received: seq<bv8>)
    requires Receiving(c, e, received) && |received| < MAX_MESSAGE_SIZE
    ensures
      var d := Push(e, SYS_EX_END).(umpActive := false);
      Received(d, received + [SYS_EX_END]) && SameSession(c, d) && d.log == c.log && d.frames == c.frames
  {
    var d := Push(e, SYS_EX_END).(umpActive := false);
    assert d.buffer[..d.counter] == e.buffer[..e.counter] + [SYS_EX_END];
  }

  predicate SevenBitId(id: Id) {
    id.id1 < 0x80 && id.id2 < 0x80 && id.id3 < 0x80
  }

  function Payload(f: seq<bv8>): seq<bv8>
    requires |f| >= 2
  {
    f[1..|f| - 1]
  }

  lemma LowByte(n: nat)
    requires n < 0x80
    ensures Byte8(n) < 0x80
  {
    NumOfByte(n);
  }

  /** A frame is its data bytes between F0 and F7. */
  lemma FramePayload(id: Id, status: bv8, part: nat, wish: bv8, b: nat, s: nat, rest: seq<bv8>)
    requires SevenBitId(id) && status < 0x80 && wish < 0x80 && part < 0x80 && b < 0x80 && s < 0x80 && SevenBit(rest)
    ensures
      var f := Header(id, status, part, wish, b, s) + rest + [SYS_EX_END];
      SevenBit(Payload(f)) && f == [SYS_EX_START] + Payload(f) + [SYS_EX_END] && |Payload(f)| == |rest| + 9
  {
    hide Byte8;
    LowByte(part);
    LowByte(b);
    LowByte(s);
    var header := Header(id, status, part, wish, b, s);
    var f := header + rest + [SYS_EX_END];
    assert Payload(f) == header[1..] + rest;
    assert SevenBit(header[1..]);
  }

  /** A frame of the backup, sent packet by packet to an open session with the same layout. */
  lemma FrameDelivered(d: Conf, b: nat, s: nat, part: nat, vals: seq<bv16>, h: Handler)
    requires Ready(d) && d.enabled && HasSection(d.layout, b, s)
    requires d.layout[b][s].count == |vals| && 1 <= |vals| <= 4032
    requires part < Parts(d.layout[b][s]) && b < 0x80 && s < 0x80 && SevenBitId(d.id)
    requires Accepts(h) && Settable(d.layout[b][s], vals)
    ensures PARAMS_PER_MESSAGE * part < |vals|
    ensures
      var f := Frame(d.id, REQUEST, part, WISH_SET, b, s, PartValues(vals, part));
      var r := HandlePackets(d, MidiCodec.Chain(0, Payload(f)), h);
      && SameSession(d, r)
      && r.log == d.log + SetEvents(b, s, vals, PARAMS_PER_MESSAGE * part, PartEnd(|vals|, part))
      && r.frames == d.frames + [Frame(d.id, ACK, part, WISH_SET, b, s, PartValues(vals, part))]
  {
    hide HandlePackets, HandleRequest, Header, Encode, Parts, MessageLength, PartOk, Settable, Accepts, SetEvents;
    PartsBound(d.layout[b][s], part);
    FrameLength(d.layout[b][s], part, b, s, d.id, vals);
    var f := Frame(d.id, REQUEST, part, WISH_SET, b, s, PartValues(vals, part));
    EncodeSevenBit(PartValues(vals, part));
    FramePayload(d.id, REQUEST, part, WISH_SET, b, s, Encode(PartValues(vals, part)));
    MessageDelivered(d, Payload(f), h);
    var e :| && Received(e, f) && SameSession(d, e) && e.log == d.log && e.frames == d.frames
             && HandlePackets(d, MidiCodec.Chain(0, Payload(f)), h) == ResetUmp(HandleRequest(e, h));
    PartReplayed(e, b, s, part, d.id, vals, h);
  }

  /** Messages sent back one after the other, packet by packet. */
  function Feed(d: Conf, frames: seq<seq<bv8>>, h: Handler): (r: Conf)
    requires Ready(d) && forall i :: 0 <= i < |frames| ==> |frames[i]| >= 2
    ensures Ready(r)
    decreases |frames|
  {
    if frames == [] then d else Feed(HandlePackets(d, MidiCodec.Chain(0, Payload(frames[0])), h), frames[1..], h)
  }

  lemma {:induction false} FramesLong(id: Id, b: nat, s: nat, vals: seq<bv16>, j: nat, parts: nat)
    requires j < parts ==> PARAMS_PER_MESSAGE * (parts - 1) <= |vals|
    ensures
      forall i :: 0 <= i < |PartFrames(id, REQUEST, b, s, vals, j, parts)| ==>
        |PartFrames(id, REQUEST, b, s, vals, j, parts)[i]| >= 2
    decreases parts - j
  {
    hide Header, Encode;
    if j < parts {
      FramesLong(id, b, s, vals, j + 1, parts);
    }
  }

  /** The frames from part `j` on are all acknowledged, and set the values from there on. */
  lemma {:induction false} ReplayFrom(d: Conf, b: nat, s: nat, vals: seq<bv16>, j: nat, parts: nat, h: Handler)
    requires Ready(d) && d.enabled && HasSection(d.layout, b, s)
    requires d.layout[b][s].count == |vals| && 1 <= |vals| <= 4032
    requires parts == Parts(d.layout[b][s]) && j <= parts && b < 0x80 && s < 0x80 && SevenBitId(d.id)
    requires PARAMS_PER_MESSAGE * (parts - 1) <= |vals|
    requires Accepts(h) && Settable(d.layout[b][s], vals)
    ensures
      var frames := PartFrames(d.id, REQUEST, b, s, vals, j, parts);
      && (forall i :: 0 <= i < |frames| ==> |frames[i]| >= 2)
      && var r := Feed(d, frames, h);
         && SameSession(d, r)
         && r.log == d.log + SetEvents(b, s, vals, PARAMS_PER_MESSAGE * j, |vals|)
         && r.frames == d.frames + PartFrames(d.id, ACK, b, s, vals, j, parts)
    decreases parts - j
  {
    hide HandlePackets, Frame, Parts, Settable, Accepts, PartValues, PartEnd, SetEvents, PartFrames, Feed;
    var frames := PartFrames(d.id, REQUEST, b, s, vals, j, parts);
    FramesLong(d.id, b, s, vals, j, parts);
    PartsBound(d.layout[b][s], j);
    NextFrame(d.id, REQUEST, b, s, vals, j, parts);
    NextFrame(d.id, ACK, b, s, vals, j, parts);
    FeedNext(d, frames, h);
    if j == parts {
      NoEvents(b, s, vals, PARAMS_PER_MESSAGE * j);
      assert d.log + [] == d.log && d.frames + [] == d.frames;
    } else {
      FrameDelivered(d, b, s, j, vals, h);
      var e := HandlePackets(d, MidiCodec.Chain(0, Payload(frames[0])), h);
      ReplayFrom(e, b, s, vals, j + 1, parts, h);
      Continued(d, e, b, s, vals, j, parts);
      var ack := Frame(d.id, ACK, j, WISH_SET, b, s, PartValues(vals, j));
      var more := PartFrames(d.id, ACK, b, s, vals, j + 1, parts);
      assert (d.frames + [ack]) + more == d.frames + ([ack] + more);
    }
  }

  lemma NoEvents(b: nat, s: nat, vals: seq<bv16>, start: nat)
    requires start >= |vals|
    ensures SetEvents(b, s, vals, start, |vals|) == []
  {
  }

  lemma NextFrame(id: Id, status: bv8, b: nat, s: nat, vals: seq<bv16>, j: nat, parts: nat)
    requires j < parts ==> PARAMS_PER_MESSAGE * (parts - 1) <= |vals|
    ensures
      var frames := PartFrames(id, status, b, s, vals, j, parts);
      if j >= parts then frames == []
      else
        && frames[0] == Frame(id, status, j, WISH_SET, b, s, PartValues(vals, j))
        && frames == [frames[0]] + PartFrames(id, status, b, s, vals, j + 1, parts)
        && frames[1..] == PartFrames(id, status, b, s, vals, j + 1, parts)
  {
    hide Frame;
  }

  lemma FeedNext(d: Conf, frames: seq<seq<bv8>>, h: Handler)
    requires Ready(d) && forall i :: 0 <= i < |frames| ==> |frames[i]| >= 2
    ensures Feed(d, frames, h) ==
            if frames == [] then d
            else Feed(HandlePackets(d, MidiCodec.Chain(0, Payload(frames[0])), h), frames[1..], h)
  {
    hide HandlePackets;
  }

  /** The calls of one part and of those after it are the calls from that part on. */
  lemma Continued(d: Conf, e: Conf, b: nat, s: nat, vals: seq<bv16>, j: nat, parts: nat)
    requires HasSection(d.layout, b, s) && d.layout[b][s].count == |vals| && 1 <= |vals| <= 4032
    requires parts == Parts(d.layout[b][s]) && j < parts
    requires e.log == d.log + SetEvents(b, s, vals, PARAMS_PER_MESSAGE * j, PartEnd(|vals|, j))
    ensures
      e.log + SetEvents(b, s, vals, PARAMS_PER_MESSAGE * (j + 1), |vals|) ==
      d.log + SetEvents(b, s, vals, PARAMS_PER_MESSAGE * j, |vals|)
  {
    hide Parts, SetEvents;
    PartsBound(d.layout[b][s], j);
    PartsBound(d.layout[b][s], j + 1);
    var start, mid := PARAMS_PER_MESSAGE * j, PartEnd(|vals|, j);
    SetEventsJoin(b, s, vals, start, mid, |vals|);
    var x, y := SetEvents(b, s, vals, start, mid), SetEvents(b, s, vals, mid, |vals|);
    assert (d.log + x) + y == d.log + (x + y);
  }

  /**
   Backup replays as SET: in an open session, the frames that answer a backup of all parts of a section,
   sent back packet by packet to an open session with the same layout, are all accepted, and set every
   parameter exactly once, in order, to the value that was read.
   */
  lemma BackupReplays(c: Conf, d: Conf, b: nat, s: nat, vals: seq<bv16>, reading: Handler, writing: Handler)
    requires Ready(c) && Ready(d) && c.enabled && d.enabled && d.layout == c.layout && d.id == c.id
    requires b < 0x80 && s < 0x80 && SevenBitId(c.id)
    requires HasSection(c.layout, b, s) && c.layout[b][s].count == |vals| && 1 <= |vals| <= 4032
    requires Settable(c.layout[b][s], vals) && Answers(reading, b, s, vals) && Accepts(writing)
    ensures PARAMS_PER_MESSAGE * (Parts(c.layout[b][s]) - 1) <= |vals|
    ensures
      var parts := Parts(c.layout[b][s]);
      var sent := PartFrames(c.id, REQUEST, b, s, vals, 0, parts);
      && HandlePackets(c, MidiCodec.Chain(0, Payload(BackupRequest(c.id, b, s))), reading).frames == c.frames + sent
      && (forall i :: 0 <= i < |sent| ==> |sent[i]| >= 2)
      && Feed(d, sent, writing).log == d.log + SetEvents(b, s, vals, 0, |vals|)
      && Feed(d, sent, writing).frames == d.frames + PartFrames(d.id, ACK, b, s, vals, 0, parts)
  {
    hide HandlePackets, HandleRequest, Header, Settable, Accepts, Answers, Frame, Parts, SetEvents, PartValues, Feed;
    var parts := Parts(c.layout[b][s]);
    PartsBound(c.layout[b][s], 0);
    var request := BackupRequest(c.id, b, s);
    FramePayload(c.id, REQUEST, PART_ALL_MESSAGES, WISH_BACKUP, b, s, [0, 0, 0, 0]);
    MessageDelivered(c, Payload(request), reading);
    var e :| && Received(e, request) && SameSession(c, e) && e.log == c.log && e.frames == c.frames
             && HandlePackets(c, MidiCodec.Chain(0, Payload(request)), reading) == ResetUmp(HandleRequest(e, reading));
    BackupAnswered(e, b, s, vals, reading);
    ReplayFrom(d, b, s, vals, 0, parts, writing);
  }

  // ---------------------------------------------------------------- the largest response

  function GetRequest(id: Id, part: nat, b: nat, s: nat): (r: seq<bv8>)
    ensures |r| == STD_REQ_MIN_MSG_SIZE
  {
    Header(id, REQUEST, part, WISH_GET, b, s) + [0, 0, 0, 0] + [SYS_EX_END]
  }

  /**
   Reading a part is answered by one frame with its values; with all 32 of them it takes the whole buffer,
   so the bound on frames is tight.
   */
  lemma GetAnswered(c: Conf, b: nat, s: nat, part: nat, vals: seq<bv16>, h: Handler)
    requires Received(c, GetRequest(c.id, part, b, s)) && c.enabled && b < 0x80 && s < 0x80
    requires HasSection(c.layout, b, s) && c.layout[b][s].count == |vals| && 1 <= |vals| <= 4032
    requires part < Parts(c.layout[b][s]) && Answers(h, b, s, vals)
    ensures PARAMS_PER_MESSAGE * part < |vals|
    ensures
      var r := HandleRequest(c, h);
      var f := Header(c.id, ACK, part, WISH_GET, b, s) + ([0, 0, 0, 0] + Encode(PartValues(vals, part))) + [SYS_EX_END];
      && r.frames == c.frames + [f]
      && (PartEnd(|vals|, part) - PARAMS_PER_MESSAGE * part == PARAMS_PER_MESSAGE ==> |f| == MAX_MESSAGE_SIZE)
  {
    hide Header, Encode, Parts, Answers, Decode, SetStatus, ProcessStandard;
    var size := STD_REQ_MIN_MSG_SIZE;
    PartsBound(c.layout[b][s], part);
    var d := c.(counter := size - 1);
    Pieces(c, Header(c.id, REQUEST, part, WISH_GET, b, s), [0, 0, 0, 0]);
    HeaderFields(d, REQUEST, part, WISH_GET, b, s);
    Accepted(d, REQUEST, part, WISH_GET, b, s, size);
    HeaderStatus(d, REQUEST, part, WISH_GET, b, s, ACK);
    StatusKeeps(d, ACK);
    StatusOnly(d, ACK);
    GetProcessed(SetStatus(d, ACK), Request(WISH_GET, AMOUNT_ALL, b, s, part, 0, 0), vals, h);
  }

  lemma GetProcessed(c: Conf, q: Request, vals: seq<bv16>, h: Handler)
    requires HasSection(c.layout, q.block, q.section) && SectionOf(c, q).count == |vals|
    requires q == Request(WISH_GET, AMOUNT_ALL, q.block, q.section, q.part, 0, 0) && q.part < 126
    requires PARAMS_PER_MESSAGE * q.part < |vals| && Answers(h, q.block, q.section, vals)
    requires Open(c) && c.counter == STD_REQ_MIN_MSG_SIZE - 1
    requires c.buffer[..INDEX_BYTE] == Header(c.id, ACK, q.part, WISH_GET, q.block, q.section)
    requires c.buffer[INDEX_BYTE..c.counter] == [0, 0, 0, 0]
    ensures
      var (r, ok) := ProcessStandard(c, q, STD_REQ_MIN_MSG_SIZE, h);
      && ok
      && r.frames == c.frames + [Header(c.id, ACK, q.part, WISH_GET, q.block, q.section) +
                                 ([0, 0, 0, 0] + Encode(PartValues(vals, q.part))) + [SYS_EX_END]]
  {
    hide Header, Encode, Values, SendResponse, Answers;
    var start := PARAMS_PER_MESSAGE * q.part;
    var end := EndIndex(SectionOf(c, q), q);
    GetValues(c, q, start, start, end, vals, h);
    var e := Values(c, q, start, start, end, h).0;
    var header, values := Header(c.id, ACK, q.part, WISH_GET, q.block, q.section), Encode(PartValues(vals, q.part));
    assert c.buffer[..c.counter] == header + [0, 0, 0, 0];
    assert (header + [0, 0, 0, 0]) + values == header + ([0, 0, 0, 0] + values);
    Sending(e, header, [0, 0, 0, 0] + values);
    OneMessage(c, q, h);
  }

  lemma OneMessage(c: Conf, q: Request, h: Handler)
    requires Open(c) && HasSection(c.layout, q.block, q.section) && q.wish == WISH_GET && q.part < 126
    requires c.counter == STD_REQ_MIN_MSG_SIZE - 1
    ensures
      var start := FirstIndex(q);
      var (e, ok) := Values(c, q, start, start, EndIndex(SectionOf(c, q), q), h);
      ok ==> ProcessStandard(c, q, STD_REQ_MIN_MSG_SIZE, h) == (SendResponse(e), true)
  {
    hide Values, SendResponse;
    assert c.(counter := c.counter) == c;
    var start := FirstIndex(q);
    var (e, ok) := Values(c, q, start, start, EndIndex(SectionOf(c, q), q), h);
    if ok {
      var sent := SendResponse(e);
      assert PartLoop(sent, q, 1, 1, false, c.counter, h) == (sent, true);
      assert PartLoop(c, q, 0, 1, false, c.counter, h) == (sent, true);
    }
  }
}
