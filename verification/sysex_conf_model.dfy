/**
 SysExConf: the configuration protocol as value-level functions of the state and of how the data handler
 behaves.
 */
module SysExModel {
  import opened Prelude
  import opened MidiUmp

  // ---------------------------------------------------------------- frame layout and codes

  const STATUS_BYTE := 4
  const PART_BYTE := 5
  const WISH_BYTE := 6
  const AMOUNT_BYTE := 7
  const BLOCK_BYTE := 8
  const SECTION_BYTE := 9
  const INDEX_BYTE := 10

  const PARAMS_PER_MESSAGE := 32
  const BYTES_PER_VALUE := 2
  const SPECIAL_REQ_MSG_SIZE := WISH_BYTE + 1 + 1
  const STD_REQ_MIN_MSG_SIZE := INDEX_BYTE + BYTES_PER_VALUE * 2 + 1
  const MAX_MESSAGE_SIZE := STD_REQ_MIN_MSG_SIZE + PARAMS_PER_MESSAGE * BYTES_PER_VALUE

  const PART_ALL_MESSAGES := 127
  const PART_ALL_MESSAGES_WITH_ACK := 126

  const WISH_GET: bv8 := 0
  const WISH_SET: bv8 := 1
  const WISH_BACKUP: bv8 := 2
  const WISH_INVALID: bv8 := 3

  const AMOUNT_SINGLE: bv8 := 0
  const AMOUNT_ALL: bv8 := 1
  const AMOUNT_INVALID: bv8 := 2

  const REQUEST: bv8 := 0x00
  const ACK: bv8 := 0x01
  const ERROR_STATUS: bv8 := 0x02
  const ERROR_CONNECTION: bv8 := 0x03
  const ERROR_WISH: bv8 := 0x04
  const ERROR_AMOUNT: bv8 := 0x05
  const ERROR_BLOCK: bv8 := 0x06
  const ERROR_SECTION: bv8 := 0x07
  const ERROR_PART: bv8 := 0x08
  const ERROR_INDEX: bv8 := 0x09
  const ERROR_NEW_VALUE: bv8 := 0x0A
  const ERROR_MESSAGE_LENGTH: bv8 := 0x0B
  const ERROR_READ: bv8 := 0x0E

  const CONN_CLOSE: bv8 := 0
  const CONN_OPEN: bv8 := 1
  const GET_BYTES_PER_VALUE: bv8 := 2
  const GET_PARAMS_PER_MESSAGE: bv8 := 3
  const SPECIAL_COUNT := 4

  // ---------------------------------------------------------------- numbers in bytes

  function Num(b: bv8): (n: nat)
    ensures n < 0x100
  {
    b as nat
  }

  function Byte8(n: nat): bv8 {
    (n % 0x100) as bv8
  }

  function Num16(v: bv16): (n: nat)
    ensures n < 0x1_0000
  {
    v as nat
  }

  lemma NumOfByte(n: nat)
    requires n < 0x100
    ensures Num(Byte8(n)) == n
  {
    assert n % 0x100 == n;
  }

  /** `Split14Bit`: the seven bits above the low seven, and the low seven. */
  function SplitHigh(v: bv16): bv8 {
    var high := ((((v >> 8) & 0xFF) as bv8) << 1) & 0x7F;
    var low := (v & 0xFF) as bv8;
    if (low >> 7) & 1 != 0 then high | 1 else high & 0xFE
  }

  function SplitLow(v: bv16): bv8 {
    ((v & 0xFF) as bv8) & 0x7F
  }

  /** `Merge14Bit` */
  function Merge(high: bv8, low: bv8): bv16 {
    var l := if high & 1 != 0 then low | 0x80 else low & 0x7F;
    (((high >> 1) as bv16) << 8) | (l as bv16)
  }

  /** Splitting gives two data bytes, and merging them gives the low fourteen bits of the value back. */
  lemma MergeSplit(v: bv16)
    ensures SplitHigh(v) < 0x80 && SplitLow(v) < 0x80
    ensures Merge(SplitHigh(v), SplitLow(v)) == v & 0x3FFF
  {
  }

  /** And the other way round. */
  lemma SplitMerge(high: bv8, low: bv8)
    requires high < 0x80 && low < 0x80
    ensures SplitHigh(Merge(high, low)) == high && SplitLow(Merge(high, low)) == low
  {
  }

  // ---------------------------------------------------------------- layout, handler, state

  datatype Section = Section(count: nat, min: bv16, max: bv16)

  /** Messages a section needs; kept in eight bits. */
  function Parts(s: Section): (n: nat)
    ensures n < 0x100
  {
    (s.count / PARAMS_PER_MESSAGE + (if s.count % PARAMS_PER_MESSAGE != 0 then 1 else 0)) % 0x100
  }

  type Layout = seq<seq<Section>>

  datatype CustomRequest = CustomRequest(id: nat, connOpenCheck: bool)
  datatype Id = Id(id1: bv8, id2: bv8, id3: bv8)

  datatype Call =
    | Get(block: nat, section: nat, index: nat)
    | Set(block: nat, section: nat, index: nat, value: bv16)
    | Custom(id: nat)

  /** A call of the data handler, and whether the session was open when it was made. */
  datatype Event = Event(call: Call, open: bool)

  /** What the data handler does: its status, the value it reads, the values it appends. */
  datatype Reply = Reply(status: bv8, value: bv16, appended: seq<bv16>)

  /** Any behaviour of the data handler: the reply to the last of the calls made to it so far. */
  type Handler = seq<Event> -> Reply

  datatype Request = Request(
    wish: bv8, amount: bv8, block: nat, section: nat, part: nat, index: nat, newValue: bv16)

  const NO_REQUEST := Request(WISH_INVALID, AMOUNT_INVALID, 0, 0, 0, 0, 0)

  /** `log` and `frames` are what the outside has seen: the handler's calls, and the frames sent. */
  datatype Conf = Conf(
    buffer: seq<bv8>,
    counter: nat,
    enabled: bool,
    ignoreErrors: bool,
    umpActive: bool,
    layout: Layout,
    customRequests: seq<CustomRequest>,
    id: Id,
    log: seq<Event>,
    frames: seq<seq<bv8>>)

  /** What holds between packets. */
  predicate Ready(c: Conf) {
    |c.buffer| == MAX_MESSAGE_SIZE && c.counter <= MAX_MESSAGE_SIZE && (c.umpActive ==> c.counter >= 1)
  }

  predicate HasSection(layout: Layout, b: nat, s: nat) {
    b < |layout| && s < |layout[b]|
  }

  // ---------------------------------------------------------------- the response under construction

  predicate Open(c: Conf) {
    |c.buffer| == MAX_MESSAGE_SIZE && c.counter < MAX_MESSAGE_SIZE
  }

  function SetStatus(c: Conf, status: bv8): (r: Conf)
    requires |c.buffer| == MAX_MESSAGE_SIZE
    ensures |r.buffer| == MAX_MESSAGE_SIZE && r.layout == c.layout
  {
    c.(buffer := c.buffer[STATUS_BYTE := status & 0x7F])
  }

  function Push(c: Conf, b: bv8): (r: Conf)
    requires Open(c)
    ensures |r.buffer| == MAX_MESSAGE_SIZE && r.counter == c.counter + 1 && r.layout == c.layout
  {
    c.(buffer := c.buffer[c.counter := b], counter := c.counter + 1)
  }

  /**
   A value is left out only when its second byte would not fit; that the end byte still fits is up to the
   caller.
   */
  function AddToResponse(c: Conf, value: bv16): (r: Conf)
    requires Open(c)
    ensures |r.buffer| == MAX_MESSAGE_SIZE && r.layout == c.layout && r.counter <= c.counter + 2
  {
    if c.counter >= MAX_MESSAGE_SIZE - 1 then c
    else Push(Push(c, SplitHigh(value)), SplitLow(value))
  }

  function SendResponse(c: Conf): (r: Conf)
    requires Open(c)
    ensures |r.buffer| == MAX_MESSAGE_SIZE && r.counter == c.counter + 1 && r.layout == c.layout
  {
    var r := Push(c, SYS_EX_END);
    if r.counter < 2 || r.buffer[0] != SYS_EX_START then r
    else r.(frames := r.frames + [r.buffer[..r.counter]])
  }

  // ---------------------------------------------------------------- standard requests

  function SectionOf(c: Conf, q: Request): Section
    requires HasSection(c.layout, q.block, q.section)
  {
    c.layout[q.block][q.section]
  }

  predicate NewValueOk(s: Section, v: bv16) {
    s.min != s.max ==> s.min <= v <= s.max
  }

  function Called(c: Conf, call: Call): Conf {
    c.(log := c.log + [Event(call, c.enabled)])
  }

  /** Room for `n` values and the end byte. */
  predicate HasRoom(c: Conf, n: int) {
    c.counter + BYTES_PER_VALUE * n < MAX_MESSAGE_SIZE
  }

  /** One value of a GET. */
  function GetStep(c: Conf, q: Request, i: nat, h: Handler): (r: (Conf, bool))
    requires Open(c) && HasSection(c.layout, q.block, q.section) && HasRoom(c, 1)
    ensures Open(r.0) && r.0.layout == c.layout && r.0.counter <= c.counter + BYTES_PER_VALUE
  {
    var index := if q.amount == AMOUNT_SINGLE then q.index else i;
    if q.amount == AMOUNT_SINGLE && q.index >= SectionOf(c, q).count then (SetStatus(c, ERROR_INDEX), false)
    else
      var d := Called(c, Get(q.block, q.section, index));
      var reply := h(d.log);
      if reply.status == ACK then (AddToResponse(d, reply.value), true)
      else if d.ignoreErrors then (AddToResponse(d, 0), true)
      else (SetStatus(d, reply.status), false)
  }

  /** Where value `i` of a SET message that starts with value `start` lies in the buffer. */
  function ValueAt(i: nat, start: nat): nat
    requires start <= i
  {
    (i - start) * BYTES_PER_VALUE + INDEX_BYTE
  }

  /** One value of a SET. */
  function SetStep(c: Conf, q: Request, i: nat, start: nat, h: Handler): (r: (Conf, bool))
    requires Open(c) && HasSection(c.layout, q.block, q.section) && start <= i < start + PARAMS_PER_MESSAGE
    ensures Open(r.0) && r.0.layout == c.layout
  {
    var single := q.amount == AMOUNT_SINGLE;
    var index := if single then q.index else i;
    var value := if single then q.newValue else Merge(c.buffer[ValueAt(i, start)], c.buffer[ValueAt(i, start) + 1]);
    if single && q.index >= SectionOf(c, q).count then (SetStatus(c, ERROR_INDEX), false)
    else if !NewValueOk(SectionOf(c, q), value) then (SetStatus(c, ERROR_NEW_VALUE), false)
    else
      var d := Called(c, Set(q.block, q.section, index, value));
      var reply := h(d.log);
      if reply.status == ACK || d.ignoreErrors then (d, true) else (SetStatus(d, reply.status), false)
  }

  /** The values of one message; false when one of them stopped it. */
  function Values(c: Conf, q: Request, i: nat, start: nat, end: nat, h: Handler): (r: (Conf, bool))
    requires Open(c) && HasSection(c.layout, q.block, q.section)
    requires start <= i && end <= start + PARAMS_PER_MESSAGE
    requires q.wish == WISH_GET ==> HasRoom(c, start + PARAMS_PER_MESSAGE - i)
    ensures Open(r.0) && r.0.layout == c.layout
    decreases end - i
  {
    if i >= end then (c, true)
    else
      var (d, ok) := if q.wish == WISH_GET then GetStep(c, q, i, h) else SetStep(c, q, i, start, h);
      if ok then Values(d, q, i + 1, start, end, h) else (d, false)
  }

  function FirstIndex(q: Request): nat {
    if q.amount == AMOUNT_ALL then PARAMS_PER_MESSAGE * q.part else 0
  }

  function EndIndex(s: Section, q: Request): (end: nat)
    ensures end <= FirstIndex(q) + PARAMS_PER_MESSAGE
  {
    if q.amount == AMOUNT_ALL then
      if FirstIndex(q) + PARAMS_PER_MESSAGE > s.count then s.count else FirstIndex(q) + PARAMS_PER_MESSAGE
    else 1
  }

  /** The request for part `j` of all, or the one part asked for. */
  function PartRequest(q: Request, j: nat, allParts: bool): Request {
    if allParts then q.(part := j) else q
  }

  /** One message, begun again at `local`. */
  function PartMessage(c: Conf, q: Request, j: nat, allParts: bool, local: nat, h: Handler): (r: (Conf, bool))
    requires |c.buffer| == MAX_MESSAGE_SIZE && HasSection(c.layout, q.block, q.section) && local < MAX_MESSAGE_SIZE
    requires q.wish == WISH_GET ==> local < STD_REQ_MIN_MSG_SIZE
    ensures |r.0.buffer| == MAX_MESSAGE_SIZE && r.0.layout == c.layout && (r.1 || Open(r.0))
  {
    var d := c.(counter := local, buffer := if allParts then c.buffer[PART_BYTE := Byte8(j)] else c.buffer);
    var p := PartRequest(q, j, allParts);
    var (e, fine) := Values(d, p, FirstIndex(p), FirstIndex(p), EndIndex(SectionOf(c, p), p), h);
    if fine then (SendResponse(e), true) else (e, false)
  }

  /** The messages from part `j` on. */
  function PartLoop(c: Conf, q: Request, j: nat, parts: nat, allParts: bool, local: nat, h: Handler): (r: (Conf, bool))
    requires |c.buffer| == MAX_MESSAGE_SIZE && HasSection(c.layout, q.block, q.section) && local < MAX_MESSAGE_SIZE
    requires q.wish == WISH_GET ==> local < STD_REQ_MIN_MSG_SIZE
    ensures |r.0.buffer| == MAX_MESSAGE_SIZE && r.0.layout == c.layout && (r.1 || Open(r.0))
    decreases parts - j
  {
    if j >= parts then (c, true)
    else
      var (d, sent) := PartMessage(c, q, j, allParts, local, h);
      if sent then PartLoop(d, PartRequest(q, j, allParts), j + 1, parts, allParts, local, h) else (d, false)
  }

  function FinalAck(c: Conf, q: Request): (r: Conf)
    requires |c.buffer| == MAX_MESSAGE_SIZE
    ensures |r.buffer| == MAX_MESSAGE_SIZE
  {
    var head :=
      [SYS_EX_START, c.id.id1, c.id.id2, c.id.id3, ACK, Byte8(PART_ALL_MESSAGES_WITH_ACK), q.wish, q.amount,
       Byte8(q.block), Byte8(q.section), 0, 0, 0, 0];
    SendResponse(c.(buffer := head + c.buffer[14..], counter := 14))
  }

  function ProcessStandard(c: Conf, q: Request, size: nat, h: Handler): (r: (Conf, bool))
    requires Open(c) && HasSection(c.layout, q.block, q.section)
    requires size == c.counter + 1 && (q.wish == WISH_SET || size == STD_REQ_MIN_MSG_SIZE) && q.wish <= WISH_BACKUP
    ensures |r.0.buffer| == MAX_MESSAGE_SIZE && r.0.layout == c.layout && (r.1 || Open(r.0))
  {
    var gets := q.wish == WISH_BACKUP || q.wish == WISH_GET;
    var allParts := gets && (q.part == PART_ALL_MESSAGES || q.part == PART_ALL_MESSAGES_WITH_ACK);
    var parts := if allParts then Parts(SectionOf(c, q)) else 1;
    var backup := q.wish == WISH_BACKUP;
    var d := if backup then c.(buffer := c.buffer[STATUS_BYTE := REQUEST][WISH_BYTE := WISH_SET]) else c;
    var p := if backup then q.(wish := WISH_GET) else q;
    var local := if backup then size - 1 - 2 * BYTES_PER_VALUE else c.counter;
    var (e, ok) := PartLoop(d, p, 0, parts, allParts, local, h);
    if ok && allParts && q.part == PART_ALL_MESSAGES_WITH_ACK then (FinalAck(e, p), true) else (e, ok)
  }

  /** The size a request must have; kept in sixteen bits. */
  function MessageLength(s: Section, q: Request): nat {
    if q.amount == AMOUNT_SINGLE || q.wish == WISH_GET || q.wish == WISH_BACKUP then STD_REQ_MIN_MSG_SIZE
    else
      var size :=
        if s.count > PARAMS_PER_MESSAGE then
          if q.part + 1 == Parts(s) then s.count - (Parts(s) - 1) * PARAMS_PER_MESSAGE else PARAMS_PER_MESSAGE
        else s.count;
      (size * BYTES_PER_VALUE + INDEX_BYTE + 1) % 0x1_0000
  }

  predicate PartOk(s: Section, q: Request) {
    if q.part == PART_ALL_MESSAGES || q.part == PART_ALL_MESSAGES_WITH_ACK then
      q.wish == WISH_GET || q.wish == WISH_BACKUP
    else if q.amount == AMOUNT_ALL then q.part < Parts(s)
    else q.part == 0
  }

  /** The fields of the request in the buffer, but for index and value. */
  function Fields(c: Conf): Request
    requires |c.buffer| == MAX_MESSAGE_SIZE
  {
    Request(c.buffer[WISH_BYTE], c.buffer[AMOUNT_BYTE], Num(c.buffer[BLOCK_BYTE]), Num(c.buffer[SECTION_BYTE]),
            Num(c.buffer[PART_BYTE]), 0, 0)
  }

  /** Why a request is refused, if it is: the first check that fails. */
  function Refusal(layout: Layout, q: Request, size: nat): (r: Option<bv8>)
    ensures r.None? ==> HasSection(layout, q.block, q.section) && q.wish <= WISH_BACKUP
    ensures r.None? ==> q.amount == AMOUNT_SINGLE || q.amount == AMOUNT_ALL
    ensures r.None? ==> q.wish == WISH_SET || size == STD_REQ_MIN_MSG_SIZE
  {
    if q.wish > WISH_BACKUP then Some(ERROR_WISH)
    else if q.block >= |layout| then Some(ERROR_BLOCK)
    else if q.section >= |layout[q.block]| then Some(ERROR_SECTION)
    else if q.amount > AMOUNT_ALL then Some(ERROR_AMOUNT)
    else if !PartOk(layout[q.block][q.section], q) then Some(ERROR_PART)
    else if size != MessageLength(layout[q.block][q.section], q) then Some(ERROR_MESSAGE_LENGTH)
    else None
  }

  /** A request for a single parameter carries its index, and its new value if it is a SET. */
  function WithIndex(c: Conf, q: Request): (r: Request)
    requires |c.buffer| == MAX_MESSAGE_SIZE
    ensures r.(index := 0, newValue := 0) == q.(index := 0, newValue := 0)
    ensures q.amount == AMOUNT_ALL ==> r == q
  {
    if q.amount == AMOUNT_SINGLE then
      q.(index := Num16(Merge(c.buffer[INDEX_BYTE], c.buffer[INDEX_BYTE + 1])),
         newValue := if q.wish == WISH_SET then Merge(c.buffer[INDEX_BYTE + 2], c.buffer[INDEX_BYTE + 3])
                     else q.newValue)
    else q
  }

  /** Reads and checks a standard request of `size` bytes in the buffer; on failure the status tells why. */
  function Decode(c: Conf, size: nat): (r: (Conf, Option<Request>))
    requires Open(c) && size <= MAX_MESSAGE_SIZE
    ensures Open(r.0) && r.0.layout == c.layout && r.0.counter == c.counter
    ensures r.1.Some? ==> HasSection(c.layout, r.1.value.block, r.1.value.section)
    ensures r.1.Some? ==> (r.1.value.wish == WISH_SET || size == STD_REQ_MIN_MSG_SIZE) && r.1.value.wish <= WISH_BACKUP
  {
    if size < STD_REQ_MIN_MSG_SIZE - BYTES_PER_VALUE then (SetStatus(c, ERROR_MESSAGE_LENGTH), None)
    else if !c.enabled then (SetStatus(c, ERROR_CONNECTION), None)
    else
      match Refusal(c.layout, Fields(c), size)
      case Some(error) => (SetStatus(c, error), None)
      case None => (SetStatus(c, ACK), Some(WithIndex(SetStatus(c, ACK), Fields(c))))
  }

  // ---------------------------------------------------------------- special requests

  /** `CustomResponse::append`, for each value in turn; true when one did not fit. */
  function Append(c: Conf, values: seq<bv16>): (r: (Conf, bool))
    requires Open(c)
    ensures Open(r.0) && r.0.layout == c.layout
    decreases |values|
  {
    if values == [] then (c, false)
    else if c.counter + BYTES_PER_VALUE >= MAX_MESSAGE_SIZE then (Append(c, values[1..]).0, true)
    else
      var v := values[0] & 0x3FFF;
      Append(Push(Push(c, SplitHigh(v)), SplitLow(v)), values[1..])
  }

  function CustomReply(c: Conf, id: nat, h: Handler): (r: Conf)
    requires Open(c)
    ensures Open(r)
  {
    var d := Called(SetStatus(c, ACK), Custom(id));
    var reply := h(d.log);
    var (e, overflowed) := Append(d, reply.appended);
    if overflowed then SetStatus(e, ERROR_READ)
    else if reply.status == ACK then e
    else if reply.status == REQUEST then SetStatus(e, ERROR_STATUS)
    else SetStatus(e, reply.status)
  }

  /** The first custom request with the identifier in the wish byte. */
  function FindCustom(requests: seq<CustomRequest>, id: nat): Option<CustomRequest> {
    if requests == [] then None
    else if requests[0].id == id then Some(requests[0])
    else FindCustom(requests[1..], id)
  }

  function Constant(c: Conf, n: nat): (r: Conf)
    requires Open(c) && c.counter + 2 < MAX_MESSAGE_SIZE
    ensures Open(r)
  {
    if c.enabled then Push(Push(SetStatus(c, ACK), 0), Byte8(n)) else SetStatus(c, ERROR_CONNECTION)
  }

  function ProcessSpecial(c: Conf, h: Handler): (r: Conf)
    requires Open(c) && c.counter + 2 < MAX_MESSAGE_SIZE
    ensures Open(r)
  {
    var wish := c.buffer[WISH_BYTE];
    if wish == CONN_CLOSE then
      if !c.enabled then SetStatus(c, ERROR_CONNECTION) else SetStatus(c.(enabled := false), ACK)
    else if wish == CONN_OPEN then SetStatus(c.(enabled := true), ACK)
    else if wish == GET_BYTES_PER_VALUE then Constant(c, BYTES_PER_VALUE)
    else if wish == GET_PARAMS_PER_MESSAGE then Constant(c, PARAMS_PER_MESSAGE)
    else
      match FindCustom(c.customRequests, Num(wish))
      case None => SetStatus(c, ERROR_WISH)
      case Some(request) =>
        if c.enabled || !request.connOpenCheck then CustomReply(c, request.id, h)
        else SetStatus(c, ERROR_CONNECTION)
  }

  // ---------------------------------------------------------------- requests and packets

  predicate IdMatches(c: Conf)
    requires |c.buffer| == MAX_MESSAGE_SIZE
  {
    c.buffer[1] == c.id.id1 && c.buffer[2] == c.id.id2 && c.buffer[3] == c.id.id3
  }

  /** A standard request, answered. */
  function StandardRequest(c: Conf, size: nat, h: Handler): (r: Conf)
    requires Open(c) && size == c.counter + 1
    ensures |r.buffer| == MAX_MESSAGE_SIZE
  {
    var (d, q) := Decode(c, size);
    if q.None? then SendResponse(d)
    else
      var (e, ok) := ProcessStandard(d, q.value, size, h);
      if ok then e else SendResponse(e)
  }

  /** `handle_request`, for the message in the first `counter` bytes of the buffer. */
  function HandleRequest(c: Conf, h: Handler): (r: Conf)
    requires Ready(c)
    ensures |r.buffer| == MAX_MESSAGE_SIZE
  {
    var size := c.counter;
    if c.layout == [] || size < SPECIAL_REQ_MSG_SIZE || c.buffer[0] != SYS_EX_START ||
       c.buffer[size - 1] != SYS_EX_END || size > MAX_MESSAGE_SIZE
    then c
    else
      var d := c.(counter := size - 1);
      if !IdMatches(d) then d
      else if d.buffer[STATUS_BYTE] != REQUEST then SendResponse(SetStatus(d, ERROR_STATUS))
      else if size == SPECIAL_REQ_MSG_SIZE then SendResponse(ProcessSpecial(d, h))
      else StandardRequest(d, size, h)
  }

  function ResetUmp(c: Conf): Conf {
    c.(counter := 0, umpActive := false)
  }

  /** A starting packet begins a new message, whatever was being received. */
  function Begun(c: Conf, status: SysExStatus): (r: Conf)
    requires Ready(c)
    ensures Ready(r)
  {
    if StartsMessage(status) then Push(ResetUmp(c), SYS_EX_START).(umpActive := true) else c
  }

  /** The payload bytes of a packet, appended. */
  function Taken(c: Conf, u: Ump, size: nat): (r: Conf)
    requires Ready(c) && size <= 6 && c.counter + size <= MAX_MESSAGE_SIZE
    ensures Ready(r) && r.counter == c.counter + size
  {
    c.(buffer := c.buffer[..c.counter] + Lanes(u, size) + c.buffer[c.counter + size..], counter := c.counter + size)
  }

  /** The end byte, and the request that is complete with it. */
  function Ended(c: Conf, h: Handler): (r: Conf)
    requires Ready(c) && c.counter < MAX_MESSAGE_SIZE
    ensures Ready(r)
  {
    ResetUmp(HandleRequest(Push(c, SYS_EX_END).(umpActive := false), h))
  }

  /** `handle_packet` */
  function HandlePacket(c: Conf, u: Ump, h: Handler): (r: Conf)
    requires Ready(c)
    ensures Ready(r)
  {
    if !IsSysEx7Packet(u) then ResetUmp(c)
    else
      var status := SysExStatusOf(u).value;
      var size := SizeOf(PayloadSize(u));
      if !StartsMessage(status) && !c.umpActive then c
      else
        var d := Begun(c, status);
        if d.counter + size + (if EndsMessage(status) then 1 else 0) > MAX_MESSAGE_SIZE then ResetUmp(d)
        else if !EndsMessage(status) then Taken(d, u, size)
        else Ended(Taken(d, u, size), h)
  }

  function HandlePackets(c: Conf, us: seq<Ump>, h: Handler): (r: Conf)
    requires Ready(c)
    ensures Ready(r)
    decreases |us|
  {
    if us == [] then c else HandlePackets(HandlePacket(c, us[0], h), us[1..], h)
  }
}
