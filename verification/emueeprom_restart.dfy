/**
 Start-up: the repair table over arbitrary flash contents, and what a restart rebuilds from
 flash contents that a run of the driver can leave behind.
 */
module EmuRestart {
  import opened Prelude
  import opened EmuLog
  import opened EmuModel
  import opened EmuAppend
  import opened EmuTransfer
  import opened EmuSteady
  import opened EmuRead

  /** Every event from `before` on programs erased blocks only. */
  ghost predicate WriteOnceTrace(g: Geometry, before: seq<Event>, after: seq<Event>) {
    && |before| <= |after|
    && after[..|before|] == before
    && forall k :: |before| <= k < |after| ==> WriteOnce(g, after[k])
  }

  lemma WriteOnceJoin(g: Geometry, before: seq<Event>, middle: seq<Event>, after: seq<Event>)
    requires WriteOnceTrace(g, before, middle) && WriteOnceTrace(g, middle, after)
    ensures WriteOnceTrace(g, before, after)
  {
    assert after[..|before|] == middle[..|before|];
    forall k | |before| <= k < |after| ensures WriteOnce(g, after[k]) {
      if k < |middle| {
        assert after[k] == after[..|middle|][k] == middle[k];
      }
    }
  }

  // ---------------------------------------------------------------- format

  /** Formatting succeeds on any flash contents and leaves an empty store. */
  ghost predicate Formatted0(s: Store, t: Store, factoryToo: bool)
    requires s.g.Valid()
  {
    && Steady(t) && t.g == s.g && ActivePage(t) == Page1
    && t.cache == EmptyMirror(s.g) == Durable(t, Page1) && Mirrors(t, map[])
    && End(t, Page1) == 1 && !t.cacheDirty && t.staged == ClearedBlock(s.g)
    && t.flash.factory == (if factoryToo then ErasedPage(s.g) else s.flash.factory)
    && t.status.factory == (if factoryToo then Erased else s.status.factory)
  }

  lemma BlankFacts(s: Store, factoryToo: bool)
    requires Sized(s)
    ensures
      var t := Blank(s, factoryToo);
      && Sized(t) && t.g == s.g && t.staged == ClearedBlock(s.g)
      && t.flash.page1 == ErasedPage(s.g) == t.flash.page2
      && t.flash.factory == (if factoryToo then ErasedPage(s.g) else s.flash.factory)
      && t.status == Statuses(Erased, Erased, if factoryToo then Erased else s.status.factory)
      && t.cache == EmptyMirror(s.g) && !t.cacheDirty
      && |t.trace| == |s.trace| + (if factoryToo then 3 else 2)
      && t.trace[..|s.trace|] == s.trace
      && t.trace[|s.trace|] == Event(s.flash, Erase(Page1))
      && t.trace[|s.trace| + 1] == Event(s.flash.With(Page1, ErasedPage(s.g)), Erase(Page2))
      && WriteOnceTrace(s.g, s.trace, t.trace)
      && (forall k :: |s.trace| < k < |t.trace| ==> t.trace[k].before.page1 == ErasedPage(s.g))
      && (forall k :: |s.trace| + 1 < k < |t.trace| ==> t.trace[k].before.page2 == ErasedPage(s.g))
  {
  }

  /** The page `format` makes active. */
  function ValidPage(g: Geometry): PageImage
    requires 1 <= g.entries && 1 <= g.blocks
  {
    ErasedPage(g)[0 := StatusBlock(g, Valid)]
  }

  /** The two status records of `format`, on blank pages. */
  lemma StampBlank(s4: Store)
    requires Sized(s4) && s4.staged == ClearedBlock(s4.g)
    requires s4.flash.page1 == ErasedPage(s4.g) == s4.flash.page2
    ensures 1 <= s4.g.blocks
    ensures
      var g := s4.g;
      Stamp(s4, Page1, Valid) ==
      s4.(flash := s4.flash.With(Page1, ValidPage(g)), status := s4.status.With(Page1, Valid),
          next := (if s4.next.page == Page1 then Cursor(Page1, Position(1, 0)) else s4.next),
          trace := s4.trace + [Event(s4.flash, Program(Page1, 0, StatusBlock(g, Valid)))])
  {
    hide WritePageStatus;
    VacantFacts(s4, Page1);
    StatusRecord(s4, Page1, Valid);
  }

  lemma StampSecond(s5: Store)
    requires Sized(s5) && s5.staged == ClearedBlock(s5.g)
    requires s5.flash.page2 == ErasedPage(s5.g)
    ensures 1 <= s5.g.blocks
    ensures
      var g := s5.g;
      Stamp(s5, Page2, Formatted).(next := Cursor(Page1, ORIGIN)) ==
      s5.(flash := s5.flash.With(Page2, FormattedPage(g)), status := s5.status.With(Page2, Formatted),
          next := Cursor(Page1, ORIGIN),
          trace := s5.trace + [Event(s5.flash, Program(Page2, 0, StatusBlock(g, Formatted)))])
  {
    hide WritePageStatus;
    VacantFacts(s5, Page2);
    StatusRecord(s5, Page2, Formatted);
  }

  lemma FormatFormula(s: Store, factoryToo: bool)
    requires Sized(s)
    ensures 1 <= s.g.blocks
    ensures
      var b := Blank(s, factoryToo);
      var f := b.flash.With(Page1, ValidPage(s.g));
      Format(s, factoryToo) ==
      b.(flash := f.With(Page2, FormattedPage(s.g)), status := Statuses(Valid, Formatted, b.status.factory),
         next := Cursor(Page1, ORIGIN),
         trace := b.trace + [Event(b.flash, Program(Page1, 0, StatusBlock(s.g, Valid))),
                             Event(f, Program(Page2, 0, StatusBlock(s.g, Formatted)))])
  {
    hide Blank, Stamp, ValidPage, FormattedPage;
    BlankFacts(s, factoryToo);
    StampBlank(Blank(s, factoryToo));
    StampSecond(Stamp(Blank(s, factoryToo), Page1, Valid));
  }

  lemma ValidPageFacts(g: Geometry, s: Store)
    requires Sized(s) && s.g == g && 1 <= g.blocks && s.flash.page1 == ValidPage(g)
    ensures End(s, Page1) == 1
    ensures CleanLog(g, ValidPage(g), 1)
    ensures LastStatus(ValidPage(g)) == Valid
    ensures Durable(s, Page1) == EmptyMirror(g)
  {
    var e := s.(flash := s.flash.With(Page1, ErasedPage(g)));
    VacantFacts(e, Page1);
    StatusBlockFacts(g, Valid, EmptyMirror(g));
    assert CleanBlock(g, StatusBlock(g, Valid));
    ProgramEnd(e, Page1, StatusBlock(g, Valid));
  }

  lemma FormatFacts(s: Store, factoryToo: bool := false)
    requires Sized(s)
    ensures Formatted0(s, Format(s, factoryToo), factoryToo)
    ensures WriteOnceTrace(s.g, s.trace, Format(s, factoryToo).trace)
  {
    hide Format, Blank, Steady, Durable, ValidPage, FormattedPage, ErasedPage, StatusBlock, Mirrors, WriteOnceTrace;
    FormatFormula(s, factoryToo);
    BlankFacts(s, factoryToo);
    var t := Format(s, factoryToo);
    ValidPageFacts(s.g, t);
    FormattedIsSteady(t);
    FormatIsOnce(s, factoryToo);
  }

  /** A status record on a blank page. */
  lemma RecordIsOnce(g: Geometry, f: Flash, page: PageId, status: PageStatus)
    requires g.Valid() && 1 <= g.blocks && SizedFlash(g, f) && f.Get(page) == ErasedPage(g) && status != Erased
    ensures WriteOnce(g, Event(f, Program(page, 0, StatusBlock(g, status))))
  {
    ErasedBlockIsNeutral(g, []);
    StatusBlockFacts(g, status, []);
  }

  lemma OnceMore(g: Geometry, before: seq<Event>, middle: seq<Event>, ev: Event)
    requires WriteOnceTrace(g, before, middle) && WriteOnce(g, ev)
    ensures WriteOnceTrace(g, before, middle + [ev])
  {
    hide WriteOnce;
    assert (middle + [ev])[..|before|] == middle[..|before|];
  }

  lemma FormatIsOnce(s: Store, factoryToo: bool)
    requires Sized(s)
    ensures WriteOnceTrace(s.g, s.trace, Format(s, factoryToo).trace)
  {
    hide Format, Blank, ValidPage, FormattedPage, ErasedPage, StatusBlock, WriteOnceTrace, WriteOnce;
    FormatFormula(s, factoryToo);
    BlankFacts(s, factoryToo);
    var b := Blank(s, factoryToo);
    var f := b.flash.With(Page1, ValidPage(s.g));
    var first := Event(b.flash, Program(Page1, 0, StatusBlock(s.g, Valid)));
    var second := Event(f, Program(Page2, 0, StatusBlock(s.g, Formatted)));
    ValidPageSized(s.g);
    RecordIsOnce(s.g, b.flash, Page1, Valid);
    OnceMore(s.g, s.trace, b.trace, first);
    RecordIsOnce(s.g, f, Page2, Formatted);
    OnceMore(s.g, s.trace, b.trace + [first], second);
    assert b.trace + [first] + [second] == b.trace + [first, second];
  }

  lemma ValidPageSized(g: Geometry)
    requires 1 <= g.entries && 1 <= g.blocks
    ensures SizedPage(g, ValidPage(g))
  {
  }

  /** One page with its Valid record, the other with its Formatted one. */
  lemma FormattedIsSteady(t: Store)
    requires Sized(t) && 1 <= t.g.blocks && t.staged == ClearedBlock(t.g) && t.cache == EmptyMirror(t.g)
    requires t.flash.page1 == ValidPage(t.g) && t.flash.page2 == FormattedPage(t.g)
    requires t.status.page1 == Valid && t.status.page2 == Formatted && t.next == Cursor(Page1, ORIGIN)
    ensures Steady(t) && ActivePage(t) == Page1 && Mirrors(t, map[])
  {
    hide ValidPage, FormattedPage, Durable, LastStatus, CleanLog, ErasedBlock;
    ValidPageFacts(t.g, t);
    ErasedBlockIsNeutral(t.g, Durable(t, Page1));
    NoOverlay(t.cache);
  }

  // ---------------------------------------------------------------- repair of arbitrary contents

  /** Exactly one runtime page is valid and the other formatted, in RAM and on flash alike. */
  ghost predicate OneValidPage(s: Store) {
    && s.status.page1 == LastStatus(s.flash.page1)
    && s.status.page2 == LastStatus(s.flash.page2)
    && ((s.status.page1 == Valid && s.status.page2 == Formatted) ||
        (s.status.page1 == Formatted && s.status.page2 == Valid))
  }

  lemma SteadyHasOneValidPage(s: Store)
    requires Steady(s)
    ensures OneValidPage(s)
  {
    FormattedPageFacts(s.g);
  }

  lemma TransferIsWriteOnce(sc: Scene, before: seq<Event>, after: seq<Event>)
    requires TransferTrace(sc, before, after)
    ensures WriteOnceTrace(sc.g, before, after)
  {
  }

  lemma FlushOnce(s: Store)
    requires Steady(s)
    ensures WriteOnceTrace(s.g, s.trace, FlushBlock(s).trace)
  {
    FlushBlockSteady(s);
  }

  lemma TransferOnce(s: Store)
    requires Steady(s)
    ensures WriteOnceTrace(s.g, s.trace, PageTransfer(s).0.trace)
  {
    hide PageTransfer, TransferTrace, WriteOnceTrace;
    TransferSteady(s);
    FlushOnce(s);
    var f := FlushBlock(s);
    TransferIsWriteOnce(SceneOf(f, ActivePage(s)), f.trace, PageTransfer(s).0.trace);
    WriteOnceJoin(s.g, s.trace, f.trace, PageTransfer(s).0.trace);
  }

  lemma SyncOnce(s: Store)
    requires Sound(s)
    ensures WriteOnceTrace(s.g, s.trace, Flush(s).0.trace)
  {
    hide Steady, Mirrors, PageTransfer, WriteOnceTrace;
    SteadySized(s);
    TransferSteady(s);
    TransferOnce(s);
    FlushOnce(s);
    if s.cacheDirty {
      FlushOnce(PageTransfer(s).0);
      WriteOnceJoin(s.g, s.trace, PageTransfer(s).0.trace, Flush(s).0.trace);
    }
  }

  /** Rebuilding the mirror touches neither the flash nor the statuses. */
  lemma CacheKeeps(s: Store)
    requires Sized(s)
    ensures
      var t := Cache(s).0;
      && t.flash == s.flash && t.trace == s.trace && t.status == s.status && t.staged == ClearedBlock(s.g)
  {
  }

  /** The interrupted transfer is started again, or the store is formatted: a steady state either way. */
  lemma ResumeFacts(s: Store, source: PageId)
    requires Sized(s) && source != Factory
    requires s.status.Get(source) == Valid && s.status.Get(Other(source)) != Valid
    requires s.flash.Get(Other(source)) == ErasedPage(s.g)
    ensures
      var t := Resume(s);
      && Steady(t) && t.flash.factory == s.flash.factory
      && WriteOnceTrace(s.g, s.trace, t.trace)
  {
    hide PageTransfer, Format, Cache;
    CacheKeeps(s);
    var c := Cache(s).0;
    if Cache(s).1 {
      TransferWorks(c, source);
      TransferIsWriteOnce(SceneOf(c, source), c.trace, PageTransfer(c).0.trace);
    } else {
      FormatFacts(c);
    }
  }

  lemma LoadFacts(s: Store)
    requires Sized(s)
    ensures
      var t := Load(s);
      && (OneValidPage(s) ==> OneValidPage(t))
      && (Steady(s) ==> Steady(t) && t.flash == s.flash && t.cache == Durable(s, ActivePage(s)))
      && t.flash.factory == s.flash.factory
      && WriteOnceTrace(s.g, s.trace, t.trace)
  {
    CacheKeeps(s);
    var c := Cache(s).0;
    if !Cache(s).1 {
      FormatFacts(c);
      SteadyHasOneValidPage(Format(c));
    }
    if Steady(s) {
      FindPages(s);
      CacheFacts(s, ActivePage(s));
    }
  }

  /** An erased page gets its Formatted record back. */
  lemma Reformatted(s: Store, page: PageId)
    requires Sized(s) && s.staged == ClearedBlock(s.g)
    ensures Sized(ErasePage(s, page)) && 1 <= s.g.blocks
    ensures
      var e := ErasePage(s, page);
      Stamp(e, page, Formatted) ==
      s.(flash := s.flash.With(page, FormattedPage(s.g)), status := s.status.With(page, Formatted),
         next := (if s.next.page == page then Cursor(page, Position(1, 0)) else s.next),
         trace := e.trace + [Event(e.flash, Program(page, 0, StatusBlock(s.g, Formatted)))])
  {
    var e := ErasePage(s, page);
    assert Sized(e);
    VacantFacts(e, page);
    StatusRecord(e, page, Formatted);
  }

  lemma ReformattedTrace(s: Store, page: PageId)
    requires Sized(s) && s.staged == ClearedBlock(s.g)
    ensures Sized(ErasePage(s, page))
    ensures WriteOnceTrace(s.g, s.trace, Stamp(ErasePage(s, page), page, Formatted).trace)
  {
    hide Stamp;
    Reformatted(s, page);
    StatusBlockFacts(s.g, Formatted, []);
  }

  /** The statuses found by a fresh object are the last records of the three pages. */
  function Scanned(g: Geometry, f: Flash): Store {
    Fresh(g, f).(cache := EmptyMirror(g), staged := ClearedBlock(g),
                 status := Statuses(LastStatus(f.page1), LastStatus(f.page2), LastStatus(f.factory)))
  }

  lemma FreshScan(g: Geometry, f: Flash)
    requires g.Valid() && SizedFlash(g, f)
    ensures Sized(Scanned(g, f))
    ensures Recover(g, f) == Repair(Scanned(g, f))
  {
    hide LastStatus, Repair, FirstErased, StatusBefore;
    assert forall s: Store :: s.status == Statuses(Erased, Erased, Erased) ==> FindWritePage(s) == None;
  }

  lemma RepairFacts(s: Store)
    requires Sized(s) && s.staged == ClearedBlock(s.g)
    requires s.status.page1 == LastStatus(s.flash.page1) && s.status.page2 == LastStatus(s.flash.page2)
    ensures Repaired(s, Repair(s))
  {
    hide Load, Resume, Format, Stamp, Repaired;
    match (s.status.page1, s.status.page2) {
      case (Erased, Valid) => RepairErased(s, Page1);
      case (Valid, Erased) => RepairErased(s, Page2);
      case (Receiving, Valid) => RepairReceiving(s, Page1);
      case (Valid, Receiving) => RepairReceiving(s, Page2);
      case (Valid, Valid) => RepairTwoValid(s);
      case (Valid, Formatted) => RepairNothing(s);
      case (Formatted, Valid) => RepairNothing(s);
      case _ => RepairByFormat(s);
    }
  }

  /** What every row of the repair table achieves. */
  ghost predicate Repaired(s: Store, t: Store) {
    OneValidPage(t) && t.flash.factory == s.flash.factory && WriteOnceTrace(s.g, s.trace, t.trace)
  }

  lemma RepairByFormat(s: Store)
    requires Sized(s)
    ensures Repaired(s, Format(s))
  {
    hide Format;
    FormatFacts(s);
    SteadyHasOneValidPage(Format(s));
  }

  lemma RepairTwoValid(s: Store)
    requires Sized(s)
    ensures Repaired(s, Load(Format(s)))
  {
    hide Format, Load;
    RepairByFormat(s);
    LoadFacts(Format(s));
    WriteOnceJoin(s.g, s.trace, Format(s).trace, Load(Format(s)).trace);
  }

  lemma RepairNothing(s: Store)
    requires Sized(s) && OneValidPage(s)
    ensures Repaired(s, Load(s))
  {
    hide Load;
    LoadFacts(s);
  }

  lemma RepairErased(s: Store, page: PageId)
    requires Sized(s) && s.staged == ClearedBlock(s.g) && page != Factory
    requires s.status.Get(Other(page)) == Valid == LastStatus(s.flash.Get(Other(page)))
    ensures Sized(ErasePage(s, page))
    ensures Repaired(s, Load(Stamp(ErasePage(s, page), page, Formatted)))
  {
    hide Load, Stamp;
    Reformatted(s, page);
    ReformattedTrace(s, page);
    FormattedPageFacts(s.g);
    var t := Stamp(ErasePage(s, page), page, Formatted);
    LoadFacts(t);
    WriteOnceJoin(s.g, s.trace, t.trace, Load(t).trace);
  }

  lemma RepairReceiving(s: Store, page: PageId)
    requires Sized(s) && s.staged == ClearedBlock(s.g) && page != Factory
    requires s.status.Get(Other(page)) == Valid && s.status.Get(page) != Valid
    ensures Sized(ErasePage(s, page))
    ensures Repaired(s, Resume(ErasePage(s, page)))
  {
    hide Resume;
    var e := ErasePage(s, page);
    assert Sized(e);
    ResumeFacts(e, Other(page));
    SteadyHasOneValidPage(Resume(e));
    WriteOnceJoin(s.g, s.trace, e.trace, Resume(e).trace);
  }

  /**
   Repair: whatever the flash holds, start-up of a fresh driver ends with one valid and one formatted
   runtime page, leaves the factory page alone, and programs erased blocks only.
   */
  lemma RepairArbitrary(g: Geometry, f: Flash)
    requires g.Valid() && SizedFlash(g, f)
    ensures
      var t := Recover(g, f);
      && OneValidPage(t)
      && t.flash.factory == f.factory
      && WriteOnceTrace(g, [], t.trace)
  {
    hide Repair;
    FreshScan(g, f);
    RepairFacts(Scanned(g, f));
  }
}
