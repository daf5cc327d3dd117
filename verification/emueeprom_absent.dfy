/**
 The value 0xFFFF.  It stands for "absent", so writing it looks like a way to remove a value; here is
 exactly what a read answers after such a write, before and after a restart.
 */
module EmuAbsent {
  import opened Prelude
  import opened EmuLog
  import opened EmuModel
  import opened EmuAppend
  import opened EmuTransfer
  import opened EmuSteady
  import opened EmuRead
  import opened EmuRestart
  import opened EmuCrash

  /** What a read answers for one address. */
  datatype Answer = Answer(status: ReadStatus, value: Word)

  function Ask(s: Store, address: nat): Answer
    requires Sized(s)
  {
    var (_, status, value) := Read(s, address);
    Answer(status, value)
  }

  /** The answer that a mirror gives. */
  function AnswerOf(c: Mirror, address: nat): Answer
    requires address < |c|
  {
    if c[address] == ERASED_VALUE then Answer(NoVariable, 0) else Answer(ReadOk, c[address])
  }

  /** Before and after a restart. */
  ghost predicate Answers(s: Store, address: nat, answer: Answer)
    requires Sized(s)
  {
    Ask(s, address) == answer && Ask(Recover(s.g, s.flash), address) == answer
  }

  /** A mirror without the address leaves the answer to what is durable on the active page. */
  lemma FallsBack(s: Store, t: Store, address: nat)
    requires Steady(s) && address < s.g.addresses
    requires t == s.(cache := t.cache, cacheDirty := t.cacheDirty) && |t.cache| == |s.cache|
    requires t.cache[address] == ERASED_VALUE
    ensures Sized(t) && Ask(t, address) == AnswerOf(Durable(s, ActivePage(s)), address)
  {
    FindPages(s);
    ScanFindsDurable(s, address);
  }

  /** A restart answers from what is durable. */
  lemma RestartAnswers(s: Store, f: Flash, address: nat)
    requires Steady(s) && address < s.g.addresses && f == s.flash
    ensures Ask(Recover(s.g, f), address) == AnswerOf(Durable(s, ActivePage(s)), address)
  {
    hide Recover, Steady, Durable;
    SteadySized(s);
    SteadyHolds(s);
    SteadyOther(s);
    RecoverSteady(s.g, f, Durable(s, ActivePage(s)));
    ReadSteady(Recover(s.g, f), address, map[]);
  }

  lemma SteadyOther(s: Store)
    requires Steady(s)
    ensures 1 <= s.g.blocks && s.flash.Get(Other(ActivePage(s))) == FormattedPage(s.g)
  {
  }

  /** Written to the mirror alone. */
  lemma ErasedInMirror(s: Store, address: Word)
    requires Steady(s) && address < s.g.addresses
    ensures
      var (t, status) := Write(s, Entry(address, ERASED_VALUE), true);
      status == WriteOk && Answers(t, address, AnswerOf(Durable(s, ActivePage(s)), address))
  {
    hide Recover, Steady, Durable, Read;
    SteadySized(s);
    var t := Write(s, Entry(address, ERASED_VALUE), true).0;
    FallsBack(s, t, address);
    RestartAnswers(s, t.flash, address);
  }

  /** What the write leaves when its entry stays in the staged block. */
  lemma StagedFormula(s: Store, address: Word)
    requires Steady(s) && HasRoom(s) && address < s.g.addresses && s.staged.entries + 1 < s.g.entries
    ensures
      var page := ActivePage(s);
      var (t, status) := WriteInternal(s, Entry(address, ERASED_VALUE));
      && status == WriteOk && t.flash == s.flash && t.status == s.status
      && t.next == Cursor(page, Position(End(s, page), s.staged.entries + 1))
      && t.cache == s.cache[address := ERASED_VALUE]
  {
    FindPages(s);
    WriteInternalFormula(s, ActivePage(s), Entry(address, ERASED_VALUE));
  }

  /** A scan that starts among the erased entries after the log sees what is durable. */
  lemma ScanFromStaged(s: Store, address: Word)
    requires Steady(s) && HasRoom(s) && address < s.g.addresses && s.staged.entries + 1 < s.g.entries
    ensures
      var page := ActivePage(s);
      var at := Position(End(s, page), s.staged.entries);
      && IsSlot(s.flash.Get(page), at)
      && FindBackward(s.flash.Get(page), at, address) == Lookup(Durable(s, page), address)
  {
    var page := ActivePage(s);
    var u, n := End(s, page), s.staged.entries;
    var p := s.flash.Get(page);
    ScanAgreesWithReplay(s.g, p, Position(u, n), address);
    var part := p[u][..n + 1];
    assert ErasedFrom(part, 0) by { assert IsErased(p[u]); }
    ErasedTail(Durable(s, page), part, 0);
  }

  /** In the staged block, and not the last entry of it. */
  lemma ErasedWhileStaging(s: Store, address: Word)
    requires Steady(s) && HasRoom(s) && address < s.g.addresses && s.staged.entries + 1 < s.g.entries
    ensures
      var (t, status) := WriteInternal(s, Entry(address, ERASED_VALUE));
      status == WriteOk && Answers(t, address, AnswerOf(Durable(s, ActivePage(s)), address))
  {
    hide Recover, WriteInternal, Durable, Steady, LastStatus, FindBackward;
    SteadySized(s);
    FindPages(s);
    StagedFormula(s, address);
    ScanFromStaged(s, address);
    RestartAnswers(s, WriteInternal(s, Entry(address, ERASED_VALUE)).0.flash, address);
  }

  // ---------------------------------------------------------------- programmed

  /** The block that the entry completes. */
  function Filled(s: Store, e: Entry): Block
    requires s.staged.entries < |s.staged.buffer|
  {
    s.staged.buffer[s.staged.entries := e]
  }

  lemma EndsAbsent(g: Geometry, b: Block, address: Word, c: Mirror)
    requires g.Valid() && 0 < |b| && address < g.addresses && b[|b| - 1] == Entry(address, ERASED_VALUE)
    requires forall i :: 0 <= i < |b| - 1 ==> UserEntry(g, b[i])
    ensures !IsErased(b) && BlockStatus(b) == None && LoadableBlock(g, b)
    ensures address < |c| ==> ReplayBlock(c, b)[address] == ERASED_VALUE
  {
    var rest := b[..|b| - 1];
    assert forall i :: 0 <= i < |rest| ==> UserEntry(g, rest[i]);
    UserBlock(g, rest, |rest|);
    forall i | 0 <= i < |b| ensures Loadable(g, b[i]) {
      assert i < |rest| ==> UserEntry(g, b[i]);
    }
  }

  lemma FilledFacts(s: Store, address: Word, c: Mirror)
    requires Steady(s) && HasRoom(s) && address < s.g.addresses && s.staged.entries + 1 == s.g.entries
    ensures
      var e := Entry(address, ERASED_VALUE);
      var blk := Filled(s, e);
      && |blk| == s.g.entries && blk[s.g.entries - 1] == e
      && !IsErased(blk) && BlockStatus(blk) == None && LoadableBlock(s.g, blk)
      && (address < |c| ==> ReplayBlock(c, blk)[address] == ERASED_VALUE)
  {
    hide BlockStatus, LoadableBlock, ReplayBlock, IsErased, CleanLog, LastStatus, FormattedPage;
    var blk := Filled(s, Entry(address, ERASED_VALUE));
    assert forall i :: 0 <= i < |blk| - 1 ==> blk[i] == s.staged.buffer[i];
    EndsAbsent(s.g, blk, address, c);
  }

  /** The scan starts at the last entry of the log, and that is the entry for the address. */
  lemma FoundAtOnce(t: Store, page: PageId, address: Word, u: nat)
    requires Sized(t) && address < t.g.addresses && t.cache[address] == ERASED_VALUE
    requires FindReadPage(t) == Some(page) && 1 <= u <= t.g.blocks && t.next == Cursor(page, Position(u, 0))
    requires t.flash.Get(page)[u - 1][t.g.entries - 1] == Entry(address, ERASED_VALUE)
    ensures Ask(t, address) == Answer(ReadOk, ERASED_VALUE)
  {
  }

  /** What the write leaves when its entry completes the block. */
  lemma ProgrammedFormula(s: Store, address: Word)
    requires Steady(s) && HasRoom(s) && address < s.g.addresses && s.staged.entries + 1 == s.g.entries
    ensures
      var page := ActivePage(s);
      var u := End(s, page);
      var e := Entry(address, ERASED_VALUE);
      var (t, status) := WriteInternal(s, e);
      && status == WriteOk && t.status == s.status && u < |s.flash.Get(page)|
      && t.flash == s.flash.With(page, s.flash.Get(page)[u := Filled(s, e)])
      && t.next == Cursor(page, Position(u + 1, 0))
      && t.cache == s.cache[address := ERASED_VALUE]
  {
    hide WriteInternal, LastStatus, FormattedPage, CleanLog;
    FindPages(s);
    FillingFormula(s, ActivePage(s), Entry(address, ERASED_VALUE));
  }

  /** The entry that completes its block goes to flash with it. */
  lemma ErasedAndProgrammed(s: Store, address: Word)
    requires Steady(s) && HasRoom(s) && address < s.g.addresses && s.staged.entries + 1 == s.g.entries
    ensures
      var (t, status) := WriteInternal(s, Entry(address, ERASED_VALUE));
      status == WriteOk && Answers(t, address, Answer(ReadOk, ERASED_VALUE))
  {
    hide Recover, WriteInternal, BlockStatus, LoadableBlock, Ask, Steady, Filled;
    var page := ActivePage(s);
    SteadySized(s);
    FindPages(s);
    ProgrammedFormula(s, address);
    FilledFacts(s, address, []);
    var t := WriteInternal(s, Entry(address, ERASED_VALUE)).0;
    FoundAtOnce(t, page, address, End(s, page) + 1);
    RestartFindsIt(s, t.flash, address);
  }

  /** After a restart the mirror lacks the address, and the scan still finds the entry. */
  lemma RestartFindsIt(s: Store, f: Flash, address: Word)
    requires Steady(s) && HasRoom(s) && address < s.g.addresses && s.staged.entries + 1 == s.g.entries
    requires
      var page := ActivePage(s);
      f == s.flash.With(page, s.flash.Get(page)[End(s, page) := Filled(s, Entry(address, ERASED_VALUE))])
    ensures SizedFlash(s.g, f) && Ask(Recover(s.g, f), address) == Answer(ReadOk, ERASED_VALUE)
  {
    hide Recover, BlockStatus, Ask, ReplayBlock, Filled, Steady, CleanLog, Replay, LoadableBlock;
    ActiveLog(s);
    var page := ActivePage(s);
    var u := End(s, page);
    var p, q := s.flash.Get(page), f.Get(page);
    var blk := Filled(s, Entry(address, ERASED_VALUE));
    FilledFacts(s, address, Replay(EmptyMirror(s.g), p[..u]));
    ExtendLog(s.g, p, u, blk, EmptyMirror(s.g));
    LogEnd(s.g, q, u + 1);
    LogLoads(s.g, p, u, blk);
    assert LoadableBlocks(s.g, q[..u + 1]);
    assert q[u] == blk;
    RestartLoads(s, f, u + 1);
    FoundAtOnce(Recover(s.g, f), page, address, u + 1);
  }

  lemma ActiveLog(s: Store)
    requires Steady(s)
    ensures Sized(s) && ActivePage(s) != Factory
    ensures
      var p := s.flash.Get(ActivePage(s));
      IsLog(s.g, p, End(s, ActivePage(s))) && CleanLog(s.g, p, End(s, ActivePage(s))) && LastStatus(p) == Valid
  {
  }

  lemma LogLoads(g: Geometry, p: PageImage, u: nat, blk: Block)
    requires CleanLog(g, p, u) && u < |p| && LoadableBlock(g, blk)
    ensures LoadableBlocks(g, p[u := blk][..u + 1])
  {
    hide LoadableBlock;
    forall b | 0 <= b < u ensures LoadableBlock(g, p[b]) {
      CleanLoads(g, p[b]);
    }
  }

  lemma CleanLoads(g: Geometry, b: Block)
    requires CleanBlock(g, b)
    ensures LoadableBlock(g, b)
  {
    forall i | 0 <= i < |b| ensures Loadable(g, b[i]) {
      assert Clean(g, b[i]);
    }
  }

  /** Start-up from a valid and a formatted page, where the log loads. */
  lemma RestartLoads(s: Store, f: Flash, u: nat)
    requires Steady(s) && SizedFlash(s.g, f)
    requires
      var page := ActivePage(s);
      && f == s.flash.With(page, f.Get(page)) && LastStatus(f.Get(page)) == Valid
      && u == FirstErased(f.Get(page)) && LoadableBlocks(s.g, f.Get(page)[..u])
    ensures
      var page := ActivePage(s);
      var r := Recover(s.g, f);
      && r.flash == f && FindReadPage(r) == Some(page) && r.next == Cursor(page, Position(u, 0))
      && r.cache == Replay(EmptyMirror(s.g), f.Get(page)[..u])
  {
    hide Recover;
    FreshScan(s.g, f);
    FormattedPageFacts(s.g);
    LoadIsReplay(s.g, f.Get(ActivePage(s))[..u]);
  }

  // ---------------------------------------------------------------- every accepted write

  /** A plain write that finds room, at once or after a transfer. */
  lemma ErasedIntoRoom(s: Store, address: Word)
    requires Steady(s) && HasRoom(s) && address < s.g.addresses
    ensures
      var (t, status) := WriteInternal(s, Entry(address, ERASED_VALUE));
      && status == WriteOk
      && Answers(t, address, if s.staged.entries + 1 == s.g.entries then Answer(ReadOk, ERASED_VALUE)
                             else AnswerOf(Durable(s, ActivePage(s)), address))
  {
    hide Answers, WriteInternal, Durable;
    StagedPart(s);
    if s.staged.entries + 1 == s.g.entries {
      ErasedAndProgrammed(s, address);
    } else {
      ErasedWhileStaging(s, address);
    }
  }

  lemma StagedPart(s: Store)
    requires Steady(s)
    ensures s.staged.entries < s.g.entries
  {
  }

  /** What every accepted write of 0xFFFF leads to. */
  lemma AfterErasedValue(s: Store, address: Word, cacheOnly: bool)
    requires Steady(s) && address < s.g.addresses
    ensures
      var (t, status) := Write(s, Entry(address, ERASED_VALUE), cacheOnly);
      && (status == WriteOk <==> cacheOnly || Accepts(s))
      && (status == WriteOk ==>
            Answers(t, address, if Programmed(s, cacheOnly) then Answer(ReadOk, ERASED_VALUE)
                                else AnswerOf(Underneath(s, cacheOnly), address)))
  {
    hide Answers, WriteInternal, Write, Steady, Durable, PageTransfer;
    var e := Entry(address, ERASED_VALUE);
    SteadySized(s);
    if cacheOnly {
      ErasedInMirror(s, address);
    } else if HasRoom(s) {
      ErasedIntoRoom(s, address);
      PlainWrite(s, e);
    } else {
      WriteWhenFull(s, e);
      TransferSteady(s);
      if Accepts(s) {
        ErasedIntoRoom(PageTransfer(s).0, address);
      } else {
        WriteRefused(s, e);
      }
    }
  }

  lemma PlainWrite(s: Store, e: Entry)
    requires Sized(s) && e.address < s.g.addresses && WriteInternal(s, e).1 == WriteOk
    ensures Write(s, e) == WriteInternal(s, e)
  {
    hide WriteInternal;
  }

  /** Does the write complete a block, so that its entry is programmed? */
  predicate Programmed(s: Store, cacheOnly: bool) {
    !cacheOnly && (if HasRoom(s) then s.staged.entries + 1 else 1) == s.g.entries
  }

  /** What the flash holds without the entry: a transfer makes the whole mirror durable first. */
  function Underneath(s: Store, cacheOnly: bool): Mirror {
    if cacheOnly || HasRoom(s) then Durable(s, ActivePage(s)) else s.cache
  }

  /**
   Writing 0xFFFF, to the mirror alone or to the log, with a transfer before it if the page is full: the next
   read says NoVariable if and only if the entry has not been programmed and the address was not durable.
   Otherwise it is ReadOk: with 0xFFFF itself when the entry completed its block, else with the durable value,
   whatever had been staged since.  A restart answers the same.
   */
  lemma ErasedValueBringsBackTheOld(s: Store, address: Word, cacheOnly: bool)
    requires Steady(s) && address < s.g.addresses
    ensures
      var (t, status) := Write(s, Entry(address, ERASED_VALUE), cacheOnly);
      var durable := Underneath(s, cacheOnly);
      && (status == WriteOk <==> cacheOnly || Accepts(s))
      && (status == WriteOk ==>
            var (_, answer, value) := Read(t, address);
            && (answer == NoVariable <==> !Programmed(s, cacheOnly) && durable[address] == ERASED_VALUE)
            && (answer != NoVariable ==>
                  && answer == ReadOk
                  && value == if Programmed(s, cacheOnly) then ERASED_VALUE else durable[address])
            && Ask(Recover(s.g, t.flash), address) == Ask(t, address))
  {
    hide Write, Read, Recover, Steady, Accepts, Programmed, Underneath;
    UnderneathSized(s, cacheOnly);
    AfterErasedValue(s, address, cacheOnly);
  }

  lemma UnderneathSized(s: Store, cacheOnly: bool)
    requires Steady(s)
    ensures |Underneath(s, cacheOnly)| == s.g.addresses && Sized(s)
  {
  }
}
