/**
 EmuEEPROM as a state machine over values: what each operation of the driver does to the
 flash, the RAM mirror, the staged write block and the cached bookkeeping.  Every flash
 operation is recorded together with the flash contents just before it, so that the
 contents at every possible power cut can be named.
 */
module EmuModel {
  import opened Prelude
  import opened EmuLog

  datatype PageId = Page1 | Page2 | Factory

  datatype Flash = Flash(page1: PageImage, page2: PageImage, factory: PageImage) {
    function Get(id: PageId): PageImage {
      match id
      case Page1 => page1
      case Page2 => page2
      case Factory => factory
    }

    function With(id: PageId, p: PageImage): Flash {
      match id
      case Page1 => this.(page1 := p)
      case Page2 => this.(page2 := p)
      case Factory => this.(factory := p)
    }
  }

  datatype Statuses = Statuses(page1: PageStatus, page2: PageStatus, factory: PageStatus) {
    function Get(id: PageId): PageStatus {
      match id
      case Page1 => page1
      case Page2 => page2
      case Factory => factory
    }

    function With(id: PageId, s: PageStatus): Statuses {
      match id
      case Page1 => this.(page1 := s)
      case Page2 => this.(page2 := s)
      case Factory => this.(factory := s)
    }
  }

  datatype FlashOp = Erase(page: PageId) | Program(page: PageId, block: nat, data: Block)

  /** One flash operation and what the flash held when it was issued. */
  datatype Event = Event(before: Flash, op: FlashOp)

  /** A byte offset of the log, as the write block it lies in and the entry slot there. */
  datatype Position = Position(block: nat, entry: nat)

  const ORIGIN := Position(0, 0)

  /** The cached next write offset and the page it belongs to; offset 0 means "not known". */
  datatype Cursor = Cursor(page: PageId, at: Position)

  /** The write block being filled in RAM. */
  datatype Staged = Staged(page: PageId, block: nat, entries: nat, dirty: bool, buffer: Block)

  datatype WriteStatus = WriteOk | PageFull | NoPage | WriteError
  datatype ReadStatus = ReadOk | NoVariable | NoReadPage | ReadError

  datatype Store = Store(
    g: Geometry,
    flash: Flash,
    trace: seq<Event>,
    cache: Mirror,
    staged: Staged,
    status: Statuses,
    next: Cursor,
    cacheDirty: bool)

  predicate SizedFlash(g: Geometry, f: Flash) {
    SizedPage(g, f.page1) && SizedPage(g, f.page2) && SizedPage(g, f.factory)
  }

  predicate Sized(s: Store) {
    && s.g.Valid()
    && SizedFlash(s.g, s.flash)
    && |s.cache| == s.g.addresses
    && |s.staged.buffer| == s.g.entries
    && (s.staged.dirty ==> s.staged.block < s.g.blocks)
    && s.next.at.entry < s.g.entries
    && (s.next.at.block < s.g.blocks || s.next.at == Position(s.g.blocks, 0))
  }

  // ---------------------------------------------------------------- flash operations

  function ErasePage(s: Store, page: PageId): Store {
    s.(flash := s.flash.With(page, EmuLog.ErasedPage(s.g)),
       trace := s.trace + [Event(s.flash, Erase(page))])
  }

  function ProgramBlock(s: Store, page: PageId, block: nat, data: Block): Store
    requires block < |s.flash.Get(page)|
  {
    s.(flash := s.flash.With(page, s.flash.Get(page)[block := data]),
       trace := s.trace + [Event(s.flash, Program(page, block, data))])
  }

  // ---------------------------------------------------------------- the staged block

  /** The RAM mirror, its dirty flag and the page statuses are the same. */
  predicate SameMirror(s: Store, t: Store) {
    s.cache == t.cache && s.cacheDirty == t.cacheDirty && s.status == t.status
  }

  function ClearedBlock(g: Geometry): Staged {
    Staged(Page1, 0, 0, false, ErasedBlock(g))
  }

  function ClearStaged(s: Store): Store {
    s.(staged := ClearedBlock(s.g))
  }

  function FlushBlock(s: Store): (r: Store)
    requires Sized(s)
    ensures Sized(r) && r.g == s.g && SameMirror(r, s)
    ensures !r.staged.dirty
  {
    if !s.staged.dirty then s
    else
      var s1 := ProgramBlock(s, s.staged.page, s.staged.block, s.staged.buffer);
      var s2 :=
        if s.next.page == s.staged.page && s.next.at.block == s.staged.block && s.next.at.entry > 0
        then s1.(next := Cursor(s.staged.page, Position(s.staged.block + 1, 0)))
        else s1;
      ClearStaged(s2)
  }

  function Advance(g: Geometry, at: Position): Position {
    if at.entry + 1 >= g.entries then Position(at.block + 1, 0) else Position(at.block, at.entry + 1)
  }

  /** Flushes a staged block for another place, then opens one for (page, block) if none is open. */
  function OpenBlock(s: Store, page: PageId, block: nat): (r: Store)
    requires Sized(s) && block < s.g.blocks
    ensures Sized(r) && r.g == s.g && SameMirror(r, s)
    ensures r.staged.dirty && r.staged.page == page && r.staged.block == block
  {
    var s1 := if s.staged.dirty && (s.staged.page != page || s.staged.block != block) then FlushBlock(s) else s;
    if s1.staged.dirty then s1 else s1.(staged := Staged(page, block, 0, true, ErasedBlock(s.g)))
  }

  function WriteEntry(s: Store, page: PageId, at: Position, e: Entry): (r: (Store, WriteStatus))
    requires Sized(s) && at.entry < s.g.entries
    ensures Sized(r.0) && r.0.g == s.g && SameMirror(r.0, s)
    ensures at.block < s.g.blocks ==> r.1 == WriteOk
  {
    if at.block >= s.g.blocks then (s, PageFull)
    else
      var s1 := OpenBlock(s, page, at.block);
      var s2 := s1.(staged := s1.staged.(buffer := s1.staged.buffer[at.entry := e], entries := s1.staged.entries + 1));
      (if s2.staged.entries >= s.g.entries then FlushBlock(s2) else s2, WriteOk)
  }

  // ---------------------------------------------------------------- page roles

  function FindWritePage(s: Store): Option<PageId> {
    if s.status.page2 == Valid then Some(if s.status.page1 == Receiving then Page1 else Page2)
    else if s.status.page1 == Valid then Some(if s.status.page2 == Receiving then Page2 else Page1)
    else None
  }

  function FindReadPage(s: Store): Option<PageId> {
    if s.status.page1 == Valid then Some(Page1)
    else if s.status.page2 == Valid then Some(Page2)
    else None
  }

  function SetStatus(s: Store, page: PageId, status: PageStatus): Store {
    s.(status := s.status.With(page, status))
  }

  /** Appends and flushes a status record; None when the page has no erased block left. */
  function WritePageStatus(s: Store, page: PageId, status: PageStatus): (r: Option<Store>)
    requires Sized(s)
    ensures r.Some? ==> Sized(r.value) && r.value.g == s.g && !r.value.staged.dirty
  {
    var s1 := FlushBlock(s);
    var u := FirstErased(s1.flash.Get(page));
    if u >= s.g.blocks then None
    else
      var s2 := FlushBlock(WriteEntry(s1, page, Position(u, 0), StatusEntry(status)).0);
      var s3 := if s2.next.page == page then s2.(next := Cursor(page, Position(u + 1, 0))) else s2;
      Some(SetStatus(s3, page, status))
  }

  function RefreshNext(s: Store, page: PageId): Store {
    s.(next := Cursor(page, Position(FirstErased(s.flash.Get(page)), 0)))
  }

  predicate InPage(p: PageImage, at: Position) {
    at.block <= |p| && (at.block < |p| ==> at.entry <= |p[at.block]|)
  }

  /** The last status record before a log position. */
  function StatusBefore(p: PageImage, at: Position): PageStatus
    requires InPage(p, at)
  {
    if at.block < |p| && BlockStatus(p[at.block][..at.entry]).Some?
    then BlockStatus(p[at.block][..at.entry]).value
    else LastStatus(p[..at.block])
  }

  /** Re-reads a page's status from flash, backwards from the cached append position if it has one. */
  function RefreshPageStatus(s: Store, page: PageId): (r: Store)
    requires Sized(s)
    ensures Sized(r) && r.g == s.g
  {
    if FindWritePage(s) == Some(page) then
      var s1 := if s.next.page != page || s.next.at == ORIGIN then RefreshNext(s, page) else s;
      var p := s1.flash.Get(page);
      var end := Position(s.g.blocks, 0);
      var from := if s1.next.at != ORIGIN && s1.next.at.block < s.g.blocks then s1.next.at else end;
      SetStatus(s1, page, StatusBefore(p, from))
    else SetStatus(s, page, LastStatus(s.flash.Get(page)))
  }

  // ---------------------------------------------------------------- reading and writing

  /** The append position of the page being written: the cached one, or the one a scan finds. */
  function Located(s: Store, page: PageId): (r: Store)
    requires Sized(s)
    ensures Sized(r) && r.g == s.g
  {
    if s.next.page == page && s.next.at != ORIGIN then s else RefreshNext(s, page)
  }

  function WriteInternal(s: Store, e: Entry, cacheOnly: bool := false): (r: (Store, WriteStatus))
    requires Sized(s)
    ensures Sized(r.0) && r.0.g == s.g
  {
    if e.address == RESERVED_STATUS_ADDRESS || e.address >= s.g.addresses then (s, WriteError)
    else if cacheOnly then
      (s.(cache := s.cache[e.address := e.value], cacheDirty := true), WriteOk)
    else if FindWritePage(s).None? then (s, NoPage)
    else
      var page := FindWritePage(s).value;
      var s1 := Located(s, page);
      if s1.next.at.block >= s.g.blocks then (s1, PageFull)
      else
        var s2 := WriteEntry(s1, page, s1.next.at, e).0;
        (s2.(next := Cursor(page, Advance(s.g, s1.next.at)), cache := s2.cache[e.address := e.value]), WriteOk)
  }

  /** Rewrites the mirrored values of the addresses from `address` on. */
  function Dump(s: Store, address: nat): (r: (Store, WriteStatus))
    requires Sized(s)
    ensures Sized(r.0) && r.0.g == s.g
    ensures address >= s.g.addresses ==> r == (s, WriteOk)
    decreases s.g.addresses - address
  {
    if address >= s.g.addresses then (s, WriteOk)
    else if s.cache[address] == ERASED_VALUE then Dump(s, address + 1)
    else
      var w := WriteInternal(s, Entry(address, s.cache[address]));
      if w.1 != WriteOk then w else Dump(w.0, address + 1)
  }

  /** Rebuilds the RAM mirror from the active page; fails when its log names an address out of range. */
  function Cache(s: Store): (r: (Store, bool))
    requires Sized(s)
    ensures Sized(r.0) && r.0.g == s.g && !r.0.cacheDirty
  {
    var s1 := ClearStaged(s).(cache := EmptyMirror(s.g), next := Cursor(Page1, ORIGIN), cacheDirty := false);
    if FindReadPage(s).None? then (s1, false)
    else
      var page := FindReadPage(s).value;
      var p := s.flash.Get(page);
      var loaded := LoadBlocks(s.g, p[..FirstErased(p)]);
      (s1.(cache := loaded.cache, next := Cursor(page, Position(loaded.blocks, 0))), loaded.ok)
  }

  function Other(page: PageId): PageId {
    if page == Page1 then Page2 else Page1
  }

  /** The first half of a transfer: the mirror is in the new page, the old page still stands. */
  function CopyToOther(s: Store, source: PageId): (r: (Store, WriteStatus))
    requires Sized(s)
    ensures Sized(r.0) && r.0.g == s.g
  {
    var page := Other(source);
    var received := WritePageStatus(s, page, Receiving);
    if received.None? then (FlushBlock(s), WriteError)
    else
      var dumped := Dump(received.value.(next := Cursor(page, ORIGIN)), 0);
      if dumped.1 != WriteOk then dumped else (FlushBlock(dumped.0), WriteOk)
  }

  /** The second half: retire the old page, promote the new one, reload the mirror. */
  function SwapPages(s: Store, source: PageId): (r: (Store, WriteStatus))
    requires Sized(s)
    ensures Sized(r.0) && r.0.g == s.g
  {
    var erased := ErasePage(s, source);
    assert Sized(erased);
    var formatted := WritePageStatus(erased, source, Formatted);
    if formatted.None? then (FlushBlock(erased), WriteError)
    else
      var valid := WritePageStatus(formatted.value, Other(source), Valid);
      if valid.None? then (FlushBlock(formatted.value), WriteError)
      else
        var cached := Cache(valid.value);
        (cached.0, if cached.1 then WriteOk else WriteError)
  }

  function PageTransfer(s: Store): (r: (Store, WriteStatus))
    requires Sized(s)
    ensures Sized(r.0) && r.0.g == s.g
  {
    var s1 := FlushBlock(s);
    if FindReadPage(s1).None? then (s1, NoPage)
    else
      var source := FindReadPage(s1).value;
      var copied := CopyToOther(s1, source);
      if copied.1 != WriteOk then copied else SwapPages(copied.0, source)
  }

  function Write(s: Store, e: Entry, cacheOnly: bool := false): (r: (Store, WriteStatus))
    requires Sized(s)
    ensures Sized(r.0) && r.0.g == s.g
  {
    if e.address == RESERVED_STATUS_ADDRESS || e.address >= s.g.addresses then (s, WriteError)
    else
      var w := WriteInternal(s, e, cacheOnly);
      if w.1 != PageFull then w
      else
        var t := PageTransfer(w.0);
        if t.1 != WriteOk then t else WriteInternal(t.0, e)
  }

  function Flush(s: Store): (r: (Store, bool))
    requires Sized(s)
    ensures Sized(r.0) && r.0.g == s.g
  {
    var t := if s.cacheDirty then PageTransfer(s) else (s, WriteOk);
    if t.1 != WriteOk then (t.0, false) else (FlushBlock(t.0), true)
  }

  predicate IsSlot(p: PageImage, at: Position) {
    && at.block < |p| && at.entry < |p[at.block]|
    && forall b :: 0 <= b < |p| ==> |p[b]| > 0
  }

  /** The newest entry for an address at or before a position, as the backward scan of `read` finds it. */
  function FindBackward(p: PageImage, at: Position, address: nat): Option<Word>
    requires IsSlot(p, at)
    decreases at.block, at.entry
  {
    if p[at.block][at.entry].address == address then Some(p[at.block][at.entry].value)
    else if at.entry > 0 then FindBackward(p, Position(at.block, at.entry - 1), address)
    else if at.block > 0 then FindBackward(p, Position(at.block - 1, |p[at.block - 1]| - 1), address)
    else None
  }

  /** One entry slot earlier. */
  function Previous(g: Geometry, at: Position): Position
    requires at != ORIGIN && 1 <= g.entries
  {
    if at.entry > 0 then Position(at.block, at.entry - 1) else Position(at.block - 1, g.entries - 1)
  }

  function Read(s: Store, address: nat): (r: (Store, ReadStatus, Word))
    requires Sized(s)
    ensures Sized(r.0) && r.0.g == s.g
  {
    if address >= s.g.addresses then (s, ReadError, 0)
    else if s.cache[address] != ERASED_VALUE then (s, ReadOk, s.cache[address])
    else if FindReadPage(s).None? then (s, NoReadPage, 0)
    else
      var page := FindReadPage(s).value;
      var from := if s.next.page == page && s.next.at != ORIGIN then s.next.at else Position(s.g.blocks, 0);
      var found := FindBackward(s.flash.Get(page), Previous(s.g, from), address);
      if found.None? then (s, NoVariable, 0)
      else (s.(cache := s.cache[address := found.value]), ReadOk, found.value)
  }

  // ---------------------------------------------------------------- format, factory, start-up

  /** Writes a status record where the page is known to have room. */
  function Stamp(s: Store, page: PageId, status: PageStatus): (r: Store)
    requires Sized(s)
    ensures Sized(r) && r.g == s.g
  {
    var w := WritePageStatus(s, page, status);
    if w.None? then FlushBlock(s) else w.value
  }

  /** Nothing staged, the runtime pages (and perhaps the factory page) erased, the mirror empty. */
  function Blank(s: Store, factoryToo: bool): (r: Store)
    requires Sized(s)
    ensures Sized(r) && r.g == s.g
  {
    var s1 := SetStatus(ErasePage(ClearStaged(s), Page1), Page1, Erased);
    var s2 := SetStatus(ErasePage(s1, Page2), Page2, Erased);
    var s3 := if factoryToo then SetStatus(ErasePage(s2, Factory), Factory, Erased) else s2;
    s3.(cache := EmptyMirror(s.g), cacheDirty := false)
  }

  function Format(s: Store, factoryToo: bool := false): (r: Store)
    requires Sized(s)
    ensures Sized(r) && r.g == s.g
  {
    Stamp(Stamp(Blank(s, factoryToo), Page1, Valid), Page2, Formatted).(next := Cursor(Page1, ORIGIN))
  }

  /** Copies blocks from `b` on until an erased one. */
  function CopyPage(s: Store, from: PageId, to: PageId, b: nat): (r: Store)
    requires Sized(s) && from != to
    ensures Sized(r) && r.g == s.g
    decreases s.g.blocks - b
  {
    if b >= s.g.blocks || IsErased(s.flash.Get(from)[b]) then s
    else
      var s1 := ProgramBlock(s, to, b, s.flash.Get(from)[b]);
      CopyPage(s1, from, to, b + 1)
  }

  function StoreToFactory(s: Store): (r: (Store, bool))
    requires Sized(s)
    ensures Sized(r.0) && r.0.g == s.g
  {
    var f := Flush(s);
    if !f.1 || FindReadPage(f.0).None? then (f.0, false)
    else
      var page := FindReadPage(f.0).value;
      var s1 := SetStatus(ErasePage(f.0, Factory), Factory, Erased);
      assert Sized(s1);
      var s2 := CopyPage(s1, page, Factory, 0);
      (SetStatus(s2, Factory, s2.status.Get(page)), true)
  }

  function RestoreFromFactory(s: Store): (r: (Store, bool))
    requires Sized(s)
    ensures Sized(r.0) && r.0.g == s.g
  {
    var s0 := RefreshPageStatus(s, Factory);
    if s0.status.factory != Valid then (s0, false)
    else
      var s4 := CopyPage(Blank(s0, false), Factory, Page1, 0);
      var s5 := WritePageStatus(s4, Page1, Valid);
      if s5.None? then (FlushBlock(s4), false)
      else
        var s6 := WritePageStatus(s5.value, Page2, Formatted);
        if s6.None? then (FlushBlock(s5.value), false)
        else Cache(s6.value.(next := Cursor(Page1, ORIGIN)))
  }

  /** A transfer at start-up, which falls back to formatting. */
  function Resume(s: Store): (r: Store)
    requires Sized(s)
    ensures Sized(r) && r.g == s.g
  {
    var c := Cache(s);
    if !c.1 then Format(c.0)
    else
      var t := PageTransfer(c.0);
      if t.1 != WriteOk then Format(t.0) else t.0
  }

  /** Loads the mirror at start-up, or formats. */
  function Load(s: Store): (r: Store)
    requires Sized(s)
    ensures Sized(r) && r.g == s.g
  {
    var c := Cache(s);
    if c.1 then c.0 else Format(c.0)
  }

  function Init(s: Store): (r: Store)
    requires Sized(s)
    ensures Sized(r) && r.g == s.g
  {
    var s0 := ClearStaged(s).(next := Cursor(Page1, ORIGIN), cacheDirty := false, cache := EmptyMirror(s.g));
    assert Sized(s0);
    var s1 := RefreshPageStatus(RefreshPageStatus(RefreshPageStatus(s0, Page1), Page2), Factory);
    Repair(s1)
  }

  /** The table of start-up repairs, by the statuses found on the two runtime pages. */
  function Repair(s: Store): (r: Store)
    requires Sized(s)
    ensures Sized(r) && r.g == s.g
  {
    match (s.status.page1, s.status.page2)
    case (Erased, Valid) =>
      assert Sized(ErasePage(s, Page1));
      Load(Stamp(ErasePage(s, Page1), Page1, Formatted))
    case (Receiving, Valid) =>
      assert Sized(ErasePage(s, Page1));
      Resume(ErasePage(s, Page1))
    case (Valid, Valid) => Load(Format(s))
    case (Valid, Erased) =>
      assert Sized(ErasePage(s, Page2));
      Load(Stamp(ErasePage(s, Page2), Page2, Formatted))
    case (Valid, Formatted) => Load(s)
    case (Valid, Receiving) =>
      assert Sized(ErasePage(s, Page2));
      Resume(ErasePage(s, Page2))
    case (Formatted, Valid) => Load(s)
    case _ => Format(s)
  }

  /** A driver object as constructed: all RAM zero, statuses Erased, over whatever the flash holds. */
  function Fresh(g: Geometry, f: Flash): Store {
    Store(g, f, [], seq(g.addresses, _ => 0), Staged(Page1, 0, 0, false, seq(g.entries, _ => Entry(0, 0))),
          Statuses(Erased, Erased, Erased), Cursor(Page1, ORIGIN), false)
  }

  /** What the next power-up makes of some flash contents. */
  function Recover(g: Geometry, f: Flash): (r: Store)
    requires g.Valid() && SizedFlash(g, f)
    ensures Sized(r) && r.g == g
  {
    Init(Fresh(g, f))
  }
}
