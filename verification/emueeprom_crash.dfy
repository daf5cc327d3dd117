/**
 Power cuts.  Any run of plain writes and flushes may lose power between two flash operations;
 the next start-up rebuilds the map of a prefix of the accepted writes, losing at most the ones
 that were still in the staged block.  The one exception is the window inside a page transfer in
 which no runtime page is valid: there everything is lost.
 */
module EmuCrash {
  import opened Prelude
  import opened EmuLog
  import opened EmuModel
  import opened EmuAppend
  import opened EmuTransfer
  import opened EmuSteady
  import opened EmuRead
  import opened EmuRestart

  // ---------------------------------------------------------------- flash contents after a cut

  /** The page a start-up would read from. */
  function ValidOn(f: Flash): PageId {
    if LastStatus(f.page1) == Valid then Page1 else Page2
  }

  /** Flash contents from which a start-up rebuilds exactly the mirror `c`. */
  ghost predicate Holds(g: Geometry, f: Flash, c: Mirror)
    requires g.Valid()
  {
    var page := ValidOn(f);
    var p := f.Get(page);
    var q := f.Get(Other(page));
    var u := FirstErased(p);
    && SizedFlash(g, f)
    && 1 <= u && CleanLog(g, p, u) && LastStatus(p) == Valid
    && Replay(EmptyMirror(g), p[..u]) == c
    && ((1 <= g.blocks && q == FormattedPage(g)) || LastStatus(q) == Erased || LastStatus(q) == Receiving)
  }

  /** The window: one page is being received, and no page is valid. */
  ghost predicate Unprotected(f: Flash) {
    || (LastStatus(f.page1) == Receiving && LastStatus(f.page2) in {Erased, Formatted})
    || (LastStatus(f.page2) == Receiving && LastStatus(f.page1) in {Erased, Formatted})
  }

  lemma SteadyHolds(s: Store)
    requires Steady(s)
    ensures Holds(s.g, s.flash, Durable(s, ActivePage(s)))
    ensures ValidOn(s.flash) == ActivePage(s)
  {
    FormattedPageFacts(s.g);
  }

  /** During a transfer the source still carries everything until it is erased. */
  lemma SourceHolds(g: Geometry, sc: Scene, f: Flash, c: Mirror)
    requires g.Valid() && sc.g == g && sc.source != Factory && SizedFlash(g, f)
    requires SourceStands(sc, f)
    requires LastStatus(sc.image) == Valid && 1 <= FirstErased(sc.image) && CleanLog(g, sc.image, FirstErased(sc.image))
    requires Replay(EmptyMirror(g), sc.image[..FirstErased(sc.image)]) == c
    requires Vacant(g, sc.target)
    ensures Holds(g, f, c)
  {
    ErasedPageIsLog(g);
    if sc.target != ErasedPage(g) {
      FormattedPageFacts(g);
    }
  }

  lemma WindowIsUnprotected(sc: Scene, f: Flash)
    requires sc.source != Factory && Window(sc, f)
    ensures Unprotected(f)
  {
    ErasedPageIsLog(sc.g);
  }

  /** Every new event starts from contents that hold `c` or `d`, or lies in the window. */
  ghost predicate CutSafe(g: Geometry, ev: Event, c: Mirror, d: Mirror)
    requires g.Valid()
  {
    Unprotected(ev.before) || Holds(g, ev.before, c) || Holds(g, ev.before, d)
  }

  ghost predicate CutTrace(g: Geometry, before: seq<Event>, after: seq<Event>, c: Mirror, d: Mirror)
    requires g.Valid()
  {
    && |before| <= |after|
    && after[..|before|] == before
    && forall k :: |before| <= k < |after| ==> CutSafe(g, after[k], c, d)
  }

  lemma CutJoin(g: Geometry, before: seq<Event>, middle: seq<Event>, after: seq<Event>, c: Mirror, d: Mirror)
    requires g.Valid() && CutTrace(g, before, middle, c, d) && CutTrace(g, middle, after, c, d)
    ensures CutTrace(g, before, after, c, d)
  {
    assert after[..|before|] == middle[..|before|];
    forall k | |before| <= k < |after| ensures CutSafe(g, after[k], c, d) {
      if k < |middle| {
        assert after[k] == after[..|middle|][k] == middle[k];
      }
    }
  }

  lemma OneProgramCut(s: Store, t: Store, page: PageId, u: nat, c: Mirror, d: Mirror)
    requires s.g.Valid() && OneProgram(s, t, page, u)
    requires Holds(s.g, s.flash, c) || Holds(s.g, s.flash, d)
    ensures CutTrace(s.g, s.trace, t.trace, c, d)
  {
  }

  lemma TransferCut(s: Store, source: PageId, after: seq<Event>, c: Mirror, d: Mirror)
    requires Sized(s) && source != Factory
    requires TransferTrace(SceneOf(s, source), s.trace, after)
    requires LastStatus(s.flash.Get(source)) == Valid && 1 <= End(s, source)
    requires CleanLog(s.g, s.flash.Get(source), End(s, source)) && Durable(s, source) == d
    requires Vacant(s.g, s.flash.Get(Other(source)))
    ensures CutTrace(s.g, s.trace, after, c, d)
  {
    var sc := SceneOf(s, source);
    forall k | |s.trace| <= k < |after| ensures CutSafe(s.g, after[k], c, d) {
      assert TransferEvent(sc, after[k]);
      if SourceStands(sc, after[k].before) {
        SourceHolds(s.g, sc, after[k].before, d);
      } else {
        WindowIsUnprotected(sc, after[k].before);
      }
    }
  }

  /** A transfer out of a steady state: cuts before it see the durable mirror, cuts in it the whole log. */
  lemma TransferSteadyCut(s: Store)
    requires Steady(s)
    ensures
      var page := ActivePage(s);
      CutTrace(s.g, s.trace, PageTransfer(s).0.trace, Durable(s, page), View(s, page))
  {
    hide PageTransfer, TransferTrace, CutTrace, Holds, View, Durable;
    var page := ActivePage(s);
    var f := FlushBlock(s);
    TransferSteady(s);
    SteadyHolds(s);
    OneProgramCut(s, f, page, End(s, page), Durable(s, page), View(s, page));
    FlushBlockSteady(s);
    TransferCut(f, page, PageTransfer(s).0.trace, Durable(s, page), View(s, page));
    CutJoin(s.g, s.trace, f.trace, PageTransfer(s).0.trace, Durable(s, page), View(s, page));
  }

  // ---------------------------------------------------------------- start-up from such contents

  lemma RecoverSteady(g: Geometry, f: Flash, c: Mirror)
    requires g.Valid() && Holds(g, f, c) && 1 <= g.blocks
    requires f.Get(Other(ValidOn(f))) == FormattedPage(g)
    ensures
      var r := Recover(g, f);
      && Steady(r) && r.cache == c == Durable(r, ActivePage(r)) && Mirrors(r, map[])
      && r.flash == f && r.trace == []
      && r.staged == ClearedBlock(g) && !r.cacheDirty
  {
    hide Recover;
    FreshScan(g, f);
    FormattedPageFacts(g);
    var s := Scanned(g, f);
    CacheFacts(s, ValidOn(f));
    ErasedBlockIsNeutral(g, c);
    NoOverlay(c);
  }

  /** What the start-up does when the other page is erased: it gets its Formatted record, and the mirror loads. */
  lemma ErasedFormula(g: Geometry, f: Flash, c: Mirror)
    requires g.Valid() && Holds(g, f, c)
    requires LastStatus(f.Get(Other(ValidOn(f)))) == Erased
    ensures 1 <= g.blocks
    ensures
      var page := Other(ValidOn(f));
      var r := Recover(g, f);
      var blank := f.With(page, ErasedPage(g));
      && r.flash == f.With(page, FormattedPage(g))
      && r.trace == [Event(f, Erase(page)), Event(blank, Program(page, 0, StatusBlock(g, Formatted)))]
      && r.cache == c && !r.cacheDirty && r.staged == ClearedBlock(g) && r.g == g
      && r.status.Get(page) == Formatted && r.status.Get(ValidOn(f)) == Valid
      && r.next == Cursor(ValidOn(f), Position(FirstErased(f.Get(ValidOn(f))), 0))
  {
    hide Recover, Stamp;
    FreshScan(g, f);
    var s := Scanned(g, f);
    var page := Other(ValidOn(f));
    Reformatted(s, page);
    CacheFacts(Stamp(ErasePage(s, page), page, Formatted), ValidOn(f));
  }

  lemma RecoverErased(g: Geometry, f: Flash, c: Mirror)
    requires g.Valid() && Holds(g, f, c)
    requires LastStatus(f.Get(Other(ValidOn(f)))) == Erased
    ensures
      var r := Recover(g, f);
      && Steady(r) && r.cache == c == Durable(r, ActivePage(r)) && Mirrors(r, map[])
      && r.flash.factory == f.factory
      && r.staged == ClearedBlock(g) && !r.cacheDirty
      && CutTrace(g, [], r.trace, c, c)
  {
    hide Recover, Holds, Steady, Mirrors, Durable, CutTrace, FormattedPage, LastStatus;
    HoldsSized(g, f, c);
    ErasedFormula(g, f, c);
    LoadedIsSteady(g, f, Recover(g, f), c);
    ErasedCuts(g, f, c);
  }

  /** Loaded from the valid page, the other one back to its Formatted record. */
  lemma LoadedIsSteady(g: Geometry, f: Flash, r: Store, c: Mirror)
    requires g.Valid() && 1 <= g.blocks && Holds(g, f, c) && Sized(r) && r.g == g
    requires r.flash == f.With(Other(ValidOn(f)), FormattedPage(g))
    requires r.cache == c && r.staged == ClearedBlock(g)
    requires r.status.Get(Other(ValidOn(f))) == Formatted && r.status.Get(ValidOn(f)) == Valid
    requires r.next == Cursor(ValidOn(f), Position(FirstErased(f.Get(ValidOn(f))), 0))
    ensures Steady(r) && r.cache == c == Durable(r, ActivePage(r)) && Mirrors(r, map[])
  {
    hide FormattedPage, LastStatus, CleanLog, FirstErased, Replay, ErasedBlock;
    ErasedBlockIsNeutral(g, c);
    NoOverlay(c);
    assert ActivePage(r) == ValidOn(f) && r.flash.Get(ValidOn(f)) == f.Get(ValidOn(f));
  }

  lemma ErasedCuts(g: Geometry, f: Flash, c: Mirror)
    requires g.Valid() && Holds(g, f, c) && 1 <= g.blocks
    ensures
      var page := Other(ValidOn(f));
      var blank := f.With(page, ErasedPage(g));
      CutTrace(g, [], [Event(f, Erase(page)), Event(blank, Program(page, 0, StatusBlock(g, Formatted)))], c, c)
  {
    hide CleanLog, FirstErased, Replay, LastStatus, FormattedPage, ErasedPage, StatusBlock;
    ErasedPageIsLog(g);
  }

  /** What the start-up does when a transfer was interrupted: erase, reload, transfer again. */
  lemma ReceivingFormula(g: Geometry, f: Flash, c: Mirror)
    requires g.Valid() && Holds(g, f, c)
    requires LastStatus(f.Get(Other(ValidOn(f)))) == Receiving
    ensures
      var source := ValidOn(f);
      var e := ErasePage(Scanned(g, f), Other(source));
      && Sized(e)
      && Holds(g, e.flash, c)
      && Cache(e).1
      && CanTransfer(Cache(e).0, source) && FindReadPage(Cache(e).0) == Some(source)
      && Cache(e).0 == e.(cache := c, next := Cursor(source, Position(End(e, source), 0)))
      && Durable(e, source) == c
      && LastStatus(e.flash.Get(source)) == Valid && 1 <= End(e, source)
      && CleanLog(g, e.flash.Get(source), End(e, source))
  {
    var s := Scanned(g, f);
    var source := ValidOn(f);
    var e := ErasePage(s, Other(source));
    assert Sized(e);
    ErasedPageIsLog(g);
    CacheFacts(e, source);
  }

  lemma ReceivingIsResumed(g: Geometry, f: Flash, c: Mirror)
    requires g.Valid() && Holds(g, f, c)
    requires LastStatus(f.Get(Other(ValidOn(f)))) == Receiving
    ensures Sized(ErasePage(Scanned(g, f), Other(ValidOn(f))))
    ensures Recover(g, f) == Resume(ErasePage(Scanned(g, f), Other(ValidOn(f))))
  {
    hide Recover, Resume;
    FreshScan(g, f);
    assert Sized(ErasePage(Scanned(g, f), Other(ValidOn(f))));
  }

  lemma RecoverReceiving(g: Geometry, f: Flash, c: Mirror)
    requires g.Valid() && Holds(g, f, c)
    requires LastStatus(f.Get(Other(ValidOn(f)))) == Receiving
    ensures
      var r := Recover(g, f);
      && Steady(r) && r.cache == c == Durable(r, ActivePage(r)) && Mirrors(r, map[])
      && r.flash.factory == f.factory
      && r.staged == ClearedBlock(g) && !r.cacheDirty
      && CutTrace(g, [], r.trace, c, c)
  {
    hide Recover, PageTransfer, TransferTrace, Holds, Cache, CanTransfer, CleanLog;
    ReceivingFormula(g, f, c);
    ReceivingIsResumed(g, f, c);
    var source := ValidOn(f);
    var e := ErasePage(Scanned(g, f), Other(source));
    var t := Cache(e).0;
    TransferWorks(t, source);
    TransferCut(t, source, PageTransfer(t).0.trace, c, c);
    CutJoin(g, [], e.trace, PageTransfer(t).0.trace, c, c);
  }

  /** Start-up from protected contents rebuilds the mirror, and may itself be cut anywhere outside the window. */
  lemma RecoverHolds(g: Geometry, f: Flash, c: Mirror)
    requires g.Valid() && Holds(g, f, c)
    ensures
      var r := Recover(g, f);
      && Steady(r) && r.cache == c == Durable(r, ActivePage(r)) && Mirrors(r, map[])
      && r.flash.factory == f.factory
      && r.staged == ClearedBlock(g) && !r.cacheDirty
      && CutTrace(g, [], r.trace, c, c)
  {
    hide Recover, Holds;
    if LastStatus(f.Get(Other(ValidOn(f)))) == Erased {
      RecoverErased(g, f, c);
    } else if LastStatus(f.Get(Other(ValidOn(f)))) == Receiving {
      RecoverReceiving(g, f, c);
    } else {
      HoldsFormatted(g, f, c);
      RecoverSteady(g, f, c);
    }
  }

  lemma HoldsFormatted(g: Geometry, f: Flash, c: Mirror)
    requires g.Valid() && Holds(g, f, c)
    requires LastStatus(f.Get(Other(ValidOn(f)))) != Erased && LastStatus(f.Get(Other(ValidOn(f)))) != Receiving
    ensures 1 <= g.blocks && f.Get(Other(ValidOn(f))) == FormattedPage(g)
  {
  }

  /** A cut in the window costs everything: the next start-up formats. */
  lemma WindowLosesEverything(g: Geometry, f: Flash)
    requires g.Valid() && SizedFlash(g, f) && Unprotected(f)
    ensures Recover(g, f).cache == EmptyMirror(g) && Steady(Recover(g, f))
  {
    hide Recover, Format;
    FreshScan(g, f);
    FormatFacts(Scanned(g, f));
  }

  /** Every transfer passes through the window, whatever is stored. */
  lemma EveryTransferHasAWindow(s: Store)
    requires Steady(s)
    ensures
      var t := PageTransfer(s).0;
      exists k :: |s.trace| <= k < |t.trace| && SizedFlash(s.g, t.trace[k].before) && Unprotected(t.trace[k].before) &&
                  Recover(s.g, t.trace[k].before).cache == EmptyMirror(s.g)
  {
    hide PageTransfer, Recover, Window;
    TransferSteady(s);
    var t := PageTransfer(s).0;
    var k := |t.trace| - 1;
    var sc := SceneOf(FlushBlock(s), ActivePage(s));
    WindowIsUnprotected(sc, t.trace[k].before);
    assert TransferEvent(sc, t.trace[k]);
    WindowLosesEverything(s.g, t.trace[k].before);
  }

  /** Flash contents when power goes just before flash operation `k` of a trace, or after the last one. */
  function CutAt(s: Store, k: nat): Flash {
    if k < |s.trace| then s.trace[k].before else s.flash
  }

  lemma CutAtSized(g: Geometry, f: Flash, k: nat)
    requires g.Valid() && SizedFlash(g, f)
    ensures SizedFlash(g, CutAt(Recover(g, f), k))
  {
    hide Recover;
    RepairArbitrary(g, f);
    if k < |Recover(g, f).trace| {
      assert WriteOnce(g, Recover(g, f).trace[k]);
    }
  }

  /** Flash contents after a series of start-ups, each cut at the given flash operation. */
  function Interrupted(g: Geometry, f: Flash, cuts: seq<nat>): (r: Flash)
    requires g.Valid() && SizedFlash(g, f)
    ensures SizedFlash(g, r)
    decreases |cuts|
  {
    if cuts == [] then f
    else
      CutAtSized(g, f, cuts[0]);
      Interrupted(g, CutAt(Recover(g, f), cuts[0]), cuts[1..])
  }

  /** None of the cuts falls into the window. */
  ghost predicate OutsideWindow(g: Geometry, f: Flash, cuts: seq<nat>)
    requires g.Valid() && SizedFlash(g, f)
    decreases |cuts|
  {
    cuts == [] ||
    (CutAtSized(g, f, cuts[0]);
     var next := CutAt(Recover(g, f), cuts[0]);
     !Unprotected(next) && OutsideWindow(g, next, cuts[1..]))
  }

  /** Repeated cuts during recovery lose nothing more. */
  lemma {:induction false} RepeatedCuts(g: Geometry, f: Flash, c: Mirror, cuts: seq<nat>)
    requires g.Valid() && Holds(g, f, c) && OutsideWindow(g, f, cuts)
    ensures Holds(g, Interrupted(g, f, cuts), c)
    ensures Recover(g, Interrupted(g, f, cuts)).cache == c
    decreases |cuts|
  {
    hide Recover, Holds;
    HoldsSized(g, f, c);
    RecoverHolds(g, f, c);
    if cuts != [] {
      var r := Recover(g, f);
      var next := CutAt(r, cuts[0]);
      if cuts[0] < |r.trace| {
        assert CutSafe(g, r.trace[cuts[0]], c, c);
      } else {
        SteadyHolds(r);
      }
      HoldsSized(g, next, c);
      RepeatedCuts(g, next, c, cuts[1..]);
    }
  }

  lemma HoldsSized(g: Geometry, f: Flash, c: Mirror)
    requires g.Valid() && Holds(g, f, c)
    ensures SizedFlash(g, f)
  {
  }
}
