/**
 Appending to a page's log: what one flush, one data entry and one status record do to a
 page that is a well-formed log with a staged block behind it.
 */
module EmuAppend {
  import opened Prelude
  import opened EmuLog
  import opened EmuModel

  /** An entry as a log built from accepted writes may hold it. */
  predicate Clean(g: Geometry, e: Entry) {
    e == ERASED_ENTRY || e.address == RESERVED_STATUS_ADDRESS || (e.address < g.addresses && e.value != ERASED_VALUE)
  }

  predicate CleanBlock(g: Geometry, b: Block) {
    forall i :: 0 <= i < |b| ==> Clean(g, b[i])
  }

  ghost predicate CleanLog(g: Geometry, p: PageImage, u: nat) {
    && IsLog(g, p, u)
    && forall b :: 0 <= b < u ==> CleanBlock(g, p[b])
  }

  predicate UserEntry(g: Geometry, e: Entry) {
    e.address < g.addresses && e.address != RESERVED_STATUS_ADDRESS && e.value != ERASED_VALUE
  }

  /**
   The staged block continues the log of `page`, whose written prefix is `u` blocks long, and a
   cached append position other than 0 is the place where the next entry goes.
   */
  ghost predicate StagedFits(s: Store, page: PageId, u: nat) {
    if s.staged.dirty then
      && s.staged.page == page && s.staged.block == u
      && 0 < s.staged.entries < s.g.entries
      && |s.staged.buffer| == s.g.entries
      && ErasedFrom(s.staged.buffer, s.staged.entries)
      && (forall i :: 0 <= i < s.staged.entries ==> UserEntry(s.g, s.staged.buffer[i]))
      && s.next == Cursor(page, Position(u, s.staged.entries))
    else
      && s.staged == ClearedBlock(s.g)
      && s.next.page == page
      && (s.next.at == Position(u, 0) || s.next.at == ORIGIN)
  }

  function End(s: Store, page: PageId): nat {
    FirstErased(s.flash.Get(page))
  }

  ghost predicate Appending(s: Store, page: PageId) {
    && Sized(s)
    && 1 <= End(s, page)
    && CleanLog(s.g, s.flash.Get(page), End(s, page))
    && StagedFits(s, page, End(s, page))
  }

  /** The mirror a restart would build from the flash alone. */
  function Durable(s: Store, page: PageId): Mirror {
    Replay(EmptyMirror(s.g), s.flash.Get(page)[..End(s, page)])
  }

  /** The log of the page followed by the staged block. */
  function View(s: Store, page: PageId): Mirror {
    ReplayBlock(Durable(s, page), s.staged.buffer)
  }

  /** Entry slots taken up so far, the staged ones included. */
  function Slots(s: Store, page: PageId): nat {
    End(s, page) * s.g.entries + s.staged.entries
  }

  /** Write once: a block is programmed, with something, only while it is still erased. */
  ghost predicate WriteOnce(g: Geometry, ev: Event) {
    && SizedFlash(g, ev.before)
    && match ev.op
       case Erase(_) => true
       case Program(page, block, data) =>
         block < g.blocks && |data| == g.entries && !IsErased(data) && IsErased(ev.before.Get(page)[block])
  }

  /** The trace grew by nothing, or by programming block `u` of `page`. */
  ghost predicate OneProgram(s: Store, t: Store, page: PageId, u: nat) {
    t.trace == s.trace ||
    exists data ::
      |data| == s.g.entries && !IsErased(data) && t.trace == s.trace + [Event(s.flash, Program(page, u, data))]
  }

  /** A staged block that is dirty is neither erased nor carries a status. */
  lemma {:induction false} UserBlock(g: Geometry, b: Block, n: nat)
    requires n <= |b|
    requires ErasedFrom(b, n)
    requires forall i :: 0 <= i < n ==> UserEntry(g, b[i])
    ensures BlockStatus(b) == None
    ensures CleanBlock(g, b)
    ensures n > 0 ==> !IsErased(b)
    decreases n
  {
    ErasedTail([], b, n);
    if n == 0 {
      assert b[..0] == [];
    } else {
      assert UserEntry(g, b[n - 1]);
      UserBlock(g, b[..n - 1], n - 1);
      assert b[..n][..n - 1] == b[..n - 1];
    }
  }

  /** What programming the first erased block of a clean log does to the store's view of it. */
  lemma ProgramEnd(s: Store, page: PageId, data: Block)
    requires Sized(s) && CleanLog(s.g, s.flash.Get(page), End(s, page)) && End(s, page) < s.g.blocks
    requires |data| == s.g.entries && !IsErased(data) && CleanBlock(s.g, data)
    ensures
      var u := End(s, page);
      var t := ProgramBlock(s, page, u, data);
      && SizedFlash(t.g, t.flash)
      && End(t, page) == u + 1
      && CleanLog(t.g, t.flash.Get(page), u + 1)
      && Durable(t, page) == ReplayBlock(Durable(s, page), data)
      && LastStatus(t.flash.Get(page)) ==
         if BlockStatus(data).Some? then BlockStatus(data).value else LastStatus(s.flash.Get(page))
  {
    var u := End(s, page);
    var p := s.flash.Get(page);
    var t := ProgramBlock(s, page, u, data);
    ExtendLog(s.g, p, u, data, EmptyMirror(s.g));
    LogEnd(s.g, p[u := data], u + 1);
  }

  /** `Appending` after programming the end of a log and dropping the staged block. */
  lemma ProgrammedEnd(s: Store, t: Store, page: PageId, data: Block)
    requires Appending(s, page) && End(s, page) < s.g.blocks
    requires |data| == s.g.entries && !IsErased(data) && CleanBlock(s.g, data)
    requires t.g == s.g && |t.cache| == |s.cache|
    requires t.flash == ProgramBlock(s, page, End(s, page), data).flash
    requires t.staged == ClearedBlock(s.g) && t.next == Cursor(page, Position(End(s, page) + 1, 0))
    ensures Appending(t, page)
    ensures End(t, page) == End(s, page) + 1
    ensures View(t, page) == Durable(t, page) == ReplayBlock(Durable(s, page), data)
    ensures LastStatus(t.flash.Get(page)) ==
            if BlockStatus(data).Some? then BlockStatus(data).value else LastStatus(s.flash.Get(page))
  {
    ProgramEnd(s, page, data);
    ErasedBlockIsNeutral(s.g, Durable(t, page));
  }

  /** Flushing the staged block moves it from RAM to flash and changes nothing else. */
  lemma FlushAppending(s: Store, page: PageId)
    requires Appending(s, page)
    ensures
      var t := FlushBlock(s);
      && Appending(t, page) && !t.staged.dirty
      && View(t, page) == View(s, page) == Durable(t, page)
      && End(t, page) == End(s, page) + (if s.staged.dirty then 1 else 0)
      && LastStatus(t.flash.Get(page)) == LastStatus(s.flash.Get(page))
      && t.flash == s.flash.With(page, t.flash.Get(page))
      && OneProgram(s, t, page, End(s, page))
      && (!s.staged.dirty ==> t == s)
      && (s.staged.dirty ==> t.next == Cursor(page, Position(End(t, page), 0)))
  {
    var t := FlushBlock(s);
    if s.staged.dirty {
      UserBlock(s.g, s.staged.buffer, s.staged.entries);
      ProgrammedEnd(s, t, page, s.staged.buffer);
    } else {
      ErasedBlockIsNeutral(s.g, Durable(t, page));
    }
  }

  /** The place the next entry goes: the cached one or the one found by scanning; never different. */
  lemma LocatedFacts(s: Store, page: PageId)
    requires Appending(s, page)
    ensures
      var t := Located(s, page);
      && t == s.(next := t.next)
      && t.next == Cursor(page, Position(End(s, page), s.staged.entries))
      && Appending(t, page)
  {
  }

  /** The store with one more entry in its staged block, before a full block is flushed. */
  function StagedEntry(s: Store, page: PageId, e: Entry): Store
    requires s.staged.entries < |s.staged.buffer|
  {
    s.(staged := Staged(page, End(s, page), s.staged.entries + 1, true, s.staged.buffer[s.staged.entries := e]),
       next := Cursor(page, Position(End(s, page), s.staged.entries)))
  }

  /** What `WriteInternal` amounts to on a log with room. */
  lemma WriteInternalFormula(s: Store, page: PageId, e: Entry)
    requires Appending(s, page) && FindWritePage(s) == Some(page)
    requires e.address < s.g.addresses && End(s, page) < s.g.blocks
    ensures s.staged.entries < s.g.entries
    ensures
      var t := StagedEntry(s, page, e);
      var r := if t.staged.entries >= s.g.entries then FlushBlock(t) else t;
      WriteInternal(s, e) ==
      (r.(next := Cursor(page, Advance(s.g, t.next.at)), cache := r.cache[e.address := e.value]), WriteOk)
  {
    LocatedFacts(s, page);
    assert OpenBlock(Located(s, page), page, End(s, page)).staged ==
           Staged(page, End(s, page), s.staged.entries, true, s.staged.buffer);
  }

  /** What appending a data entry means for the log of `page`. */
  ghost predicate Appended(s: Store, t: Store, page: PageId, e: Entry)
    requires Sized(s) && Sized(t) && s.g == t.g && e.address < s.g.addresses
  {
    && Appending(t, page)
    && View(t, page) == ReplayEntry(View(s, page), e)
    && Slots(t, page) == Slots(s, page) + 1
    && SameMirror(t, s.(cache := s.cache[e.address := e.value]))
    && LastStatus(t.flash.Get(page)) == LastStatus(s.flash.Get(page))
    && t.flash == s.flash.With(page, t.flash.Get(page))
    && OneProgram(s, t, page, End(s, page))
    && (t.staged.dirty ==> t.flash == s.flash && t.staged.entries == s.staged.entries + 1)
  }

  /** A store that differs from an appending one in its staged block alone. */
  lemma StillAppending(s: Store, t: Store, page: PageId, e: Entry)
    requires Appending(s, page) && UserEntry(s.g, e) && End(s, page) < s.g.blocks
    requires s.staged.entries + 1 < s.g.entries && |s.staged.buffer| == s.g.entries
    requires t == s.(staged := StagedEntry(s, page, e).staged, cache := t.cache,
                     next := Cursor(page, Position(End(s, page), s.staged.entries + 1)))
    requires |t.cache| == |s.cache|
    ensures Appending(t, page)
  {
    hide CleanLog, FirstErased;
    ErasedBlockIsNeutral(s.g, []);
    assert t.flash == s.flash && End(t, page) == End(s, page);
    assert forall i :: 0 <= i < t.staged.entries ==> UserEntry(s.g, t.staged.buffer[i]);
    assert StagedFits(t, page, End(t, page));
  }

  /** What the staged block replays to with one more entry. */
  lemma StagedView(s: Store, page: PageId, e: Entry)
    requires Appending(s, page) && s.staged.entries < |s.staged.buffer|
    ensures ReplayBlock(Durable(s, page), s.staged.buffer[s.staged.entries := e]) == ReplayEntry(View(s, page), e)
  {
    hide CleanLog, FirstErased, Durable;
    ErasedBlockIsNeutral(s.g, []);
    StageEntry(Durable(s, page), s.staged.buffer, s.staged.entries, e);
  }

  /** The entry that leaves its block partly filled stays in RAM. */
  lemma AppendStaging(s: Store, page: PageId, e: Entry)
    requires Appending(s, page) && FindWritePage(s) == Some(page)
    requires UserEntry(s.g, e) && End(s, page) < s.g.blocks
    requires s.staged.entries + 1 < s.g.entries
    ensures WriteInternal(s, e).1 == WriteOk && Appended(s, WriteInternal(s, e).0, page, e)
  {
    hide WriteInternal, Appending, Durable, LastStatus, FirstErased, Sized;
    AppendingSized(s, page);
    WriteInternalFormula(s, page, e);
    var t := WriteInternal(s, e).0;
    StillAppending(s, t, page, e);
    AppendingSized(t, page);
    StagedView(s, page, e);
    assert t.flash == s.flash && t.trace == s.trace;
    assert Durable(t, page) == Durable(s, page) by { SameDurable(s, t, page); }
  }

  lemma SameDurable(s: Store, t: Store, page: PageId)
    requires t.g == s.g && t.flash == s.flash
    ensures Durable(t, page) == Durable(s, page) && End(t, page) == End(s, page)
  {
  }

  lemma FillingFormula(s: Store, page: PageId, e: Entry)
    requires Appending(s, page) && FindWritePage(s) == Some(page)
    requires e.address < s.g.addresses && End(s, page) < s.g.blocks
    requires s.staged.entries + 1 == s.g.entries
    ensures
      var u := End(s, page);
      var buffer := s.staged.buffer[s.staged.entries := e];
      WriteInternal(s, e) ==
      (ProgramBlock(s, page, u, buffer).(staged := ClearedBlock(s.g), next := Cursor(page, Position(u + 1, 0)),
                                         cache := s.cache[e.address := e.value]), WriteOk)
  {
    WriteInternalFormula(s, page, e);
  }

  /** The slots of a block that has just been filled are all in the log. */
  lemma SlotsFilled(s: Store, t: Store, page: PageId)
    requires t.g == s.g && End(t, page) == End(s, page) + 1
    requires s.staged.entries + 1 == s.g.entries && t.staged.entries == 0
    ensures Slots(t, page) == Slots(s, page) + 1
  {
    hide FirstErased, End;
    OneMore(End(s, page), s.g.entries);
  }

  lemma OneMore(u: nat, k: nat)
    ensures (u + 1) * k == u * k + k
  {
  }

  lemma ProgramIsOne(s: Store, t: Store, page: PageId, u: nat, data: Block)
    requires |data| == s.g.entries && !IsErased(data) && t.trace == s.trace + [Event(s.flash, Program(page, u, data))]
    ensures OneProgram(s, t, page, u)
  {
  }

  lemma AppendingSized(s: Store, page: PageId)
    requires Appending(s, page)
    ensures Sized(s) && |s.staged.buffer| == s.g.entries && SizedPage(s.g, s.flash.Get(page))
  {
  }

  /** The entry that completes its block sends it to flash. */
  lemma AppendFilling(s: Store, page: PageId, e: Entry)
    requires Appending(s, page) && FindWritePage(s) == Some(page)
    requires UserEntry(s.g, e) && End(s, page) < s.g.blocks
    requires s.staged.entries + 1 == s.g.entries
    ensures WriteInternal(s, e).1 == WriteOk && Appended(s, WriteInternal(s, e).0, page, e)
  {
    hide WriteInternal, Appending, View, Durable, LastStatus, OneProgram, Slots, IsErased, CleanBlock, BlockStatus,
         Sized;
    AppendingSized(s, page);
    FillingFormula(s, page, e);
    FilledBlock(s, page, e);
    var t := WriteInternal(s, e).0;
    var buffer := s.staged.buffer[s.staged.entries := e];
    ProgrammedEnd(s, t, page, buffer);
    SlotsFilled(s, t, page);
    ProgramIsOne(s, t, page, End(s, page), buffer);
  }

  /** A staged block completed by `e`. */
  lemma FilledBlock(s: Store, page: PageId, e: Entry)
    requires Appending(s, page) && UserEntry(s.g, e)
    requires s.staged.entries + 1 == s.g.entries
    ensures
      var buffer := s.staged.buffer[s.staged.entries := e];
      && !IsErased(buffer) && CleanBlock(s.g, buffer) && BlockStatus(buffer) == None
      && ReplayBlock(Durable(s, page), buffer) == ReplayEntry(View(s, page), e)
  {
    var buffer := s.staged.buffer[s.staged.entries := e];
    ErasedBlockIsNeutral(s.g, []);
    StageEntry(Durable(s, page), s.staged.buffer, s.staged.entries, e);
    assert forall i :: 0 <= i < s.g.entries ==> UserEntry(s.g, buffer[i]);
    UserBlock(s.g, buffer, s.g.entries);
  }

  /** Appending one data entry to a log that still has room. */
  lemma AppendEntry(s: Store, page: PageId, e: Entry)
    requires Appending(s, page) && FindWritePage(s) == Some(page)
    requires UserEntry(s.g, e) && End(s, page) < s.g.blocks
    ensures WriteInternal(s, e).1 == WriteOk && Appended(s, WriteInternal(s, e).0, page, e)
  {
    WriteInternalFormula(s, page, e);
    if s.staged.entries + 1 < s.g.entries {
      AppendStaging(s, page, e);
    } else {
      AppendFilling(s, page, e);
    }
  }

  /** A log without an erased block left: the write is refused and nothing but the cursor moves. */
  lemma AppendToFull(s: Store, page: PageId, e: Entry)
    requires Appending(s, page) && FindWritePage(s) == Some(page)
    requires e.address < s.g.addresses && End(s, page) == s.g.blocks
    ensures WriteInternal(s, e) == (Located(s, page), PageFull)
    ensures !s.staged.dirty
  {
    LocatedFacts(s, page);
  }

  /** What a status record leaves, spelled out. */
  function Stamped(s: Store, page: PageId, status: PageStatus): Store
    requires Sized(s) && End(s, page) < s.g.blocks
  {
    var u := End(s, page);
    var t := ProgramBlock(s, page, u, StatusBlock(s.g, status));
    SetStatus(t, page, status).(next := if s.next.page == page then Cursor(page, Position(u + 1, 0)) else s.next)
  }

  /** A status record takes one whole block, goes to the first erased one and is flushed at once. */
  lemma StatusRecord(s: Store, page: PageId, status: PageStatus)
    requires Sized(s) && s.staged == ClearedBlock(s.g)
    ensures End(s, page) >= s.g.blocks ==> WritePageStatus(s, page, status) == None
    ensures End(s, page) < s.g.blocks ==> WritePageStatus(s, page, status) == Some(Stamped(s, page, status))
  {
    hide FirstErased;
    if End(s, page) < s.g.blocks {
      RecordStaged(s, page, status);
    }
  }

  /** The record goes into an empty block and out again at once. */
  lemma RecordStaged(s: Store, page: PageId, status: PageStatus)
    requires Sized(s) && s.staged == ClearedBlock(s.g) && End(s, page) < s.g.blocks
    ensures
      var u := End(s, page);
      FlushBlock(WriteEntry(s, page, Position(u, 0), StatusEntry(status)).0) ==
      var t := ProgramBlock(s, page, u, StatusBlock(s.g, status));
      if s.next.page == page && s.next.at.block == u && s.next.at.entry > 0
      then t.(next := Cursor(page, Position(u + 1, 0))) else t
  {
    hide FirstErased;
  }

  lemma StampedFacts(s: Store, page: PageId, status: PageStatus)
    requires Sized(s) && s.staged == ClearedBlock(s.g) && status != Erased
    requires CleanLog(s.g, s.flash.Get(page), End(s, page)) && End(s, page) < s.g.blocks
    ensures
      var t := Stamped(s, page, status);
      && Sized(t)
      && WritePageStatus(s, page, status) == Some(t)
      && End(t, page) == End(s, page) + 1
      && CleanLog(t.g, t.flash.Get(page), End(t, page))
      && LastStatus(t.flash.Get(page)) == status
      && Durable(t, page) == Durable(s, page)
      && t.flash == s.flash.With(page, t.flash.Get(page))
      && t.trace == s.trace + [Event(s.flash, Program(page, End(s, page), StatusBlock(s.g, status)))]
      && !IsErased(StatusBlock(s.g, status))
  {
    StatusRecord(s, page, status);
    StatusBlockFacts(s.g, status, Durable(s, page));
    assert CleanBlock(s.g, StatusBlock(s.g, status));
    ProgramEnd(s, page, StatusBlock(s.g, status));
  }

  /** Rebuilding the mirror from a clean log yields exactly what is durable on it. */
  lemma CacheFacts(s: Store, page: PageId)
    requires Sized(s) && FindReadPage(s) == Some(page)
    requires CleanLog(s.g, s.flash.Get(page), End(s, page))
    ensures
      Cache(s) ==
      (s.(staged := ClearedBlock(s.g), cache := Durable(s, page), cacheDirty := false,
          next := Cursor(page, Position(End(s, page), 0))), true)
  {
    LoadIsReplay(s.g, s.flash.Get(page)[..End(s, page)]);
  }
}
