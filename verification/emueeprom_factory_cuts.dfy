/**
 Power cuts while a snapshot is taken or restored: what every cut leaves of the map and of the snapshot.
 */
module EmuFactoryCuts {
  import opened Prelude
  import opened EmuLog
  import opened EmuModel
  import opened EmuAppend
  import opened EmuTransfer
  import opened EmuSteady
  import opened EmuRestart
  import opened EmuCrash
  import opened EmuFactory

  // ---------------------------------------------------------------- what a restart makes of the contents

  /** With no valid page on flash, start-up formats. */
  lemma NoValidPageFormats(g: Geometry, f: Flash)
    requires g.Valid() && SizedFlash(g, f) && LastStatus(f.page1) != Valid && LastStatus(f.page2) != Valid
    ensures Recover(g, f).cache == EmptyMirror(g) && Steady(Recover(g, f))
  {
    hide Recover, Format;
    FreshScan(g, f);
    FormatFacts(Scanned(g, f));
  }

  /** Start-up from contents `f` ends in a steady store with the mirror `c`. */
  ghost predicate Starts(g: Geometry, f: Flash, c: Mirror) {
    g.Valid() && SizedFlash(g, f) && Steady(Recover(g, f)) && Recover(g, f).cache == c
  }

  lemma HoldsStarts(g: Geometry, f: Flash, c: Mirror)
    requires g.Valid() && Holds(g, f, c)
    ensures Starts(g, f, c)
  {
    hide Recover, Holds, Steady;
    HoldsSized(g, f, c);
    RecoverHolds(g, f, c);
  }

  /** What `n` copied blocks are worth: what they replay to if their last status record is Valid, else nothing. */
  function PartOf(g: Geometry, p: PageImage, n: nat): Mirror
    requires n <= |p|
  {
    if LastStatus(p[..n]) == Valid then Replay(EmptyMirror(g), p[..n]) else EmptyMirror(g)
  }

  lemma PrefixIsClean(g: Geometry, p: PageImage, n: nat)
    requires CleanLog(g, p, FirstErased(p)) && n <= FirstErased(p)
    ensures CleanLog(g, Prefix(g, p, n), n) && FirstErased(Prefix(g, p, n)) == n
    ensures LastStatus(Prefix(g, p, n)) == LastStatus(p[..n])
    ensures Replay(EmptyMirror(g), Prefix(g, p, n)[..n]) == Replay(EmptyMirror(g), p[..n])
    ensures LastStatus(p[..n]) == Valid ==> 1 <= n
  {
    PrefixIsLog(g, p, n);
    forall b | 0 <= b < n ensures CleanBlock(g, Prefix(g, p, n)[b]) {
      assert CleanBlock(g, p[b]);
    }
  }

  // ---------------------------------------------------------------- cuts of a snapshot

  /** Before the copying a snapshot is a flush. */
  lemma FlushCuts(s: Store)
    requires Steady(s)
    ensures s.g.Valid()
    ensures CutTrace(s.g, s.trace, Flush(s).0.trace, Durable(s, ActivePage(s)), View(s, ActivePage(s)))
  {
    hide PageTransfer, CutTrace, Holds, View, Durable, FlushBlock, Steady, OneProgram, Unprotected;
    var page := ActivePage(s);
    SteadySized(s);
    if s.cacheDirty {
      TransferSteadyCut(s);
      TransferSteady(s);
      NothingStaged(PageTransfer(s).0);
    } else {
      SteadyHolds(s);
      FlushBlockSteady(s);
      OneProgramCut(s, FlushBlock(s), page, End(s, page), Durable(s, page), View(s, page));
    }
  }

  lemma NothingStaged(s: Store)
    requires Sized(s) && s.staged == ClearedBlock(s.g)
    ensures FlushBlock(s) == s
  {
  }

  /** The trace of the copying: the erasure of the factory page, then one program a block. */
  lemma SnapshotTrace(f: Store)
    requires Steady(f)
    ensures
      var page := ActivePage(f);
      var p := f.flash.Get(page);
      var blank := f.flash.With(Factory, ErasedPage(f.g));
      && Sized(f) && page != Factory && SizedFlash(f.g, blank) && FirstErased(p) <= f.g.blocks
      && Snapshot(f, page).trace ==
         f.trace + [Event(f.flash, Erase(Factory))] + CopyEvents(f.g, blank, page, Factory, 0, FirstErased(p))
  {
    hide CopyPage, Prefix, CopyEvents, FirstErased, Steady, FactoryHolds, Durable;
    ActiveHolds(f);
    var page := ActivePage(f);
    var s1 := SetStatus(ErasePage(f, Factory), Factory, Erased);
    assert Sized(s1);
    ErasedPrefix(f.g, f.flash.Get(page));
    CopyFormula(s1, page, Factory, 0);
  }

  /** The runtime pages decide what a restart rebuilds. */
  lemma HoldsAside(g: Geometry, f: Flash, p: PageImage, c: Mirror)
    requires g.Valid() && Holds(g, f, c) && SizedPage(g, p)
    ensures Holds(g, f.With(Factory, p), c)
  {
  }

  /** While a snapshot flushes, a cut of it is a cut of that flush. */
  lemma SnapshotCutWhileFlushing(s: Store, k: nat)
    requires Sound(s) && |s.trace| <= k < |Flush(s).0.trace|
    ensures k < |StoreToFactory(s).0.trace| && s.g.Valid()
    ensures CutSafe(s.g, StoreToFactory(s).0.trace[k], Durable(s, ActivePage(s)), View(s, ActivePage(s)))
  {
    hide StoreToFactory, Flush, CutSafe, Steady, Mirrors, View, Durable, Snapshot;
    FlushCuts(s);
    SnapshotOf(s);
    var f := Flush(s).0;
    CopyComesAfter(f);
    assert StoreToFactory(s).0.trace[..|f.trace|][k] == f.trace[k];
  }

  /**
   After the flush no cut of a snapshot costs anything of the map.  With the factory page not yet erased (n = 0)
   the old snapshot stands; later it holds the first n - 1 blocks of the active page.
   */
  lemma SnapshotCutWhileCopying(s: Store, n: nat)
    requires Sound(s) && |Flush(s).0.trace| + n < |StoreToFactory(s).0.trace|
    ensures
      var f := Flush(s).0;
      var ev := StoreToFactory(s).0.trace[|f.trace| + n];
      var p := f.flash.Get(ActivePage(f));
      && Sized(s) && Holds(s.g, ev.before, s.cache)
      && (n == 0 ==> ev.before.factory == s.flash.factory)
      && (n > 0 ==> CleanLog(s.g, p, FirstErased(p)) && n - 1 <= FirstErased(p) &&
                    ev.before.factory == Prefix(s.g, p, n - 1))
  {
    hide StoreToFactory, Flush, Holds, Steady, Mirrors, Durable, Prefix, Snapshot, CleanLog, FirstErased, Sized;
    var pending :| Mirrors(s, pending);
    SteadySized(s);
    FlushSteady(s, pending);
    SnapshotOf(s);
    var f := Flush(s).0;
    ActiveHolds(f);
    SteadyHolds(f);
    DuringCopy(f, n);
  }

  /** A snapshot is a flush followed by the copying. */
  lemma SnapshotOf(s: Store)
    requires Sound(s)
    ensures Sized(s) && Steady(Flush(s).0) && ActivePage(Flush(s).0) != Factory
    ensures StoreToFactory(s).0.trace == Snapshot(Flush(s).0, ActivePage(Flush(s).0)).trace
  {
    hide Flush, Steady, Mirrors, CopyPage;
    var pending :| Mirrors(s, pending);
    SteadySized(s);
    FlushSteady(s, pending);
    FindPages(Flush(s).0);
  }

  lemma CopyComesAfter(f: Store)
    requires Steady(f) && ActivePage(f) != Factory && Sized(f)
    ensures |f.trace| <= |Snapshot(f, ActivePage(f)).trace|
    ensures Snapshot(f, ActivePage(f)).trace[..|f.trace|] == f.trace
  {
    hide Snapshot, Steady, FirstErased;
    SnapshotTrace(f);
  }

  lemma DuringCopy(f: Store, n: nat)
    requires Steady(f) && ActivePage(f) != Factory && Sized(f)
    requires |f.trace| + n < |Snapshot(f, ActivePage(f)).trace|
    requires Holds(f.g, f.flash, Durable(f, ActivePage(f)))
    ensures
      var ev := Snapshot(f, ActivePage(f)).trace[|f.trace| + n];
      var p := f.flash.Get(ActivePage(f));
      && Holds(f.g, ev.before, Durable(f, ActivePage(f)))
      && (n == 0 ==> ev.before.factory == f.flash.factory)
      && (n > 0 ==> CleanLog(f.g, p, FirstErased(p)) && n - 1 <= FirstErased(p) &&
                    ev.before.factory == Prefix(f.g, p, n - 1))
  {
    hide Snapshot, Holds, Steady, Prefix, FirstErased, Durable, LastStatus, Replay;
    ActiveHolds(f);
    SnapshotTrace(f);
    var p := f.flash.Get(ActivePage(f));
    if n > 0 {
      HoldsAside(f.g, f.flash, Prefix(f.g, p, n - 1), Durable(f, ActivePage(f)));
    }
  }

  /**
   What a later restore makes of a snapshot cut after `n` blocks: if their last status record is Valid, it is
   the part of the map that they replay to; otherwise the restore refuses.
   */
  lemma CutSnapshotRestores(s: Store, p: PageImage, n: nat)
    requires Sized(s) && CleanLog(s.g, p, FirstErased(p)) && n <= FirstErased(p)
    requires s.flash.factory == Prefix(s.g, p, n)
    ensures
      var (t, ok) := RestoreFromFactory(s);
      && (ok <==> LastStatus(p[..n]) == Valid && n < s.g.blocks)
      && (ok ==> Steady(t) && t.cache == PartOf(s.g, p, n))
      && (LastStatus(p[..n]) != Valid ==> t.flash == s.flash && t.cache == s.cache)
  {
    hide RestoreFromFactory, Prefix, Steady, CleanLog;
    PrefixIsClean(s.g, p, n);
    if LastStatus(p[..n]) == Valid {
      RestoreFacts(s, Replay(EmptyMirror(s.g), p[..n]));
    } else {
      RestoreRefused(s);
    }
  }

  /**
   A page that was formatted and never the target of a transfer has its Valid record first and no other: every
   cut after that block leaves a snapshot of part of the map that a restore accepts.
   */
  lemma {:induction false} ValidFirst(p: PageImage, n: nat)
    requires 1 <= n <= |p| && BlockStatus(p[0]) == Some(Valid)
    requires forall b :: 0 < b < n ==> BlockStatus(p[b]) == None
    ensures LastStatus(p[..n]) == Valid
  {
    assert p[..n][..n - 1] == p[..n - 1];
    if n > 1 {
      ValidFirst(p, n - 1);
    }
  }

  // ---------------------------------------------------------------- cuts of a restore

  /** Flash events of a restore: two erasures, a program for each block, and two records if the first fits. */
  function RestoreLength(g: Geometry, f: Flash): nat {
    2 + FirstErased(f.factory) + (if FirstErased(f.factory) < g.blocks then 2 else 0)
  }

  /** The flash when `n` of these events are done. */
  function RestoreFlash(g: Geometry, f: Flash, n: nat): Flash
    requires g.Valid() && SizedFlash(g, f) && n < RestoreLength(g, f)
  {
    var blank := ErasedPage(g);
    var u := FirstErased(f.factory);
    if n == 0 then f
    else if n == 1 then f.With(Page1, blank)
    else if n <= 2 + u then Flash(Prefix(g, f.factory, n - 2), blank, f.factory)
    else Flash(Prefix(g, f.factory, u)[u := StatusBlock(g, Valid)], blank, f.factory)
  }

  /** The events of a restore, from any contents with a valid factory page. */
  lemma RestoreTrace(s: Store, n: nat)
    requires Sized(s) && LastStatus(s.flash.factory) == Valid && n < RestoreLength(s.g, s.flash)
    ensures
      var t := RestoreFromFactory(s).0;
      && |t.trace| == |s.trace| + RestoreLength(s.g, s.flash)
      && t.trace[|s.trace| + n].before == RestoreFlash(s.g, s.flash, n)
  {
    hide RestoreFromFactory, Restored, Completed, Cache, Prefix, FirstErased, LastStatus, StatusBlock, CopyEvents,
         Blank;
    var u := FirstErased(s.flash.factory);
    RestoreRecords(s);
    RestoredTrace(s, n);
    var s4 := Restored(s);
    RestoredFacts(s);
    if u < s.g.blocks {
      CompletedTrace(s4);
      CacheKeeps(Completed(s4));
    }
  }

  lemma CompletedTrace(s4: Store)
    requires Sized(s4) && s4.staged == ClearedBlock(s4.g)
    requires End(s4, Page1) < s4.g.blocks && s4.flash.page2 == ErasedPage(s4.g) && 1 <= s4.g.blocks
    ensures
      var u := End(s4, Page1);
      var f := s4.flash.With(Page1, s4.flash.page1[u := StatusBlock(s4.g, Valid)]);
      Completed(s4).trace ==
      s4.trace + [Event(s4.flash, Program(Page1, u, StatusBlock(s4.g, Valid)))]
               + [Event(f, Program(Page2, 0, StatusBlock(s4.g, Formatted)))]
  {
    hide Stamped, FirstErased, StatusBlock, ErasedPage, Sized, ClearedBlock;
    StampedKeeps(s4, Page1, Valid);
    ErasedPageIsLog(s4.g);
    StampedKeeps(Stamped(s4, Page1, Valid), Page2, Formatted);
  }

  lemma RestoredTrace(s: Store, n: nat)
    requires Sized(s) && n < RestoreLength(s.g, s.flash)
    ensures
      var t := Restored(s);
      var u := FirstErased(s.flash.factory);
      && |t.trace| == |s.trace| + 2 + u
      && (n < 2 + u ==> t.trace[|s.trace| + n].before == RestoreFlash(s.g, s.flash, n))
  {
    hide Restored, Blank, Prefix, FirstErased, ErasedPage, LastStatus;
    var s1 := SetStatus(s, Factory, LastStatus(s.flash.factory));
    assert Sized(s1);
    BlankFacts(s1, false);
    RestoredFacts(s);
  }

  /** What a restart rebuilds when a restore is cut after `n` events. */
  function RestoreCut(s: Store, n: nat): Mirror
    requires Sized(s)
  {
    var p := s.flash.factory;
    var u := FirstErased(p);
    if n == 0 || (n == 1 && ActivePage(s) == Page2) then Durable(s, ActivePage(s))
    else if n == 1 then EmptyMirror(s.g)
    else PartOf(s.g, p, if n - 2 <= u then n - 2 else u)
  }

  /**
   A cut of a restore, after `n` of its events.  Before the first erasure, and before the second if page 2 was
   the active one, a restart still finds the old map; with both pages erased it finds nothing; from then on it
   finds the part of the snapshot that has been copied, as soon as that part ends in a Valid record, which is
   all of it when the copy is complete.
   */
  lemma RestoreCuts(s: Store, c: Mirror, n: nat)
    requires Steady(s) && FactoryHolds(s.g, s.flash.factory, c)
    requires n < |RestoreFromFactory(s).0.trace| - |s.trace|
    ensures Sized(s) && n < RestoreLength(s.g, s.flash)
    ensures RestoreFromFactory(s).0.trace[|s.trace| + n].before == RestoreFlash(s.g, s.flash, n)
    ensures Starts(s.g, RestoreFlash(s.g, s.flash, n), RestoreCut(s, n))
    ensures n >= 2 + FirstErased(s.flash.factory) ==> RestoreCut(s, n) == c
  {
    hide RestoreFromFactory, RestoreFlash, RestoreCut, Steady, Starts, FactoryHolds, FirstErased;
    SteadySized(s);
    HoldsIsLog(s.g, s.flash.factory, c);
    RestoreTrace(s, 0);
    RestoreTrace(s, n);
    if n < 2 {
      EarlyCut(s, c, n);
    } else {
      LateCut(s, c, n);
    }
  }

  lemma EarlyCut(s: Store, c: Mirror, n: nat)
    requires Steady(s) && FactoryHolds(s.g, s.flash.factory, c) && n < 2
    ensures Starts(s.g, RestoreFlash(s.g, s.flash, n), RestoreCut(s, n))
  {
    hide Starts, Recover, Durable, FactoryHolds, FirstErased;
    SteadyHolds(s);
    if n == 0 {
      HoldsStarts(s.g, s.flash, Durable(s, ActivePage(s)));
    } else {
      OnePageErased(s);
    }
  }

  /** Page 1 is gone, page 2 still stands. */
  lemma OnePageErased(s: Store)
    requires Steady(s)
    ensures
      Starts(s.g, s.flash.With(Page1, ErasedPage(s.g)),
             if ActivePage(s) == Page2 then Durable(s, Page2) else EmptyMirror(s.g))
  {
    hide Recover, Replay;
    var f := s.flash.With(Page1, ErasedPage(s.g));
    ErasedPageIsLog(s.g);
    FormattedPageFacts(s.g);
    if ActivePage(s) == Page2 {
      HoldsStarts(s.g, f, Durable(s, Page2));
    } else {
      NoValidPageFormats(s.g, f);
    }
  }

  lemma LateCut(s: Store, c: Mirror, n: nat)
    requires Sized(s) && FactoryHolds(s.g, s.flash.factory, c) && 2 <= n < RestoreLength(s.g, s.flash)
    ensures Starts(s.g, RestoreFlash(s.g, s.flash, n), RestoreCut(s, n))
    ensures n >= 2 + FirstErased(s.flash.factory) ==> RestoreCut(s, n) == c
  {
    hide Starts, Prefix, LastStatus, CleanLog, Replay, StatusBlock;
    var u := FirstErased(s.flash.factory);
    WholeIsValid(s.g, s.flash.factory, c);
    if n <= 2 + u {
      PartStarts(s, n - 2);
    } else {
      WithRecord(s, c);
    }
  }

  lemma WholeIsValid(g: Geometry, p: PageImage, c: Mirror)
    requires FactoryHolds(g, p, c)
    ensures LastStatus(p[..FirstErased(p)]) == Valid && PartOf(g, p, FirstErased(p)) == c
  {
    ErasedSuffix(g, p, FirstErased(p));
  }

  /** Part of the snapshot on page 1, page 2 erased. */
  lemma PartStarts(s: Store, n: nat)
    requires Sized(s) && CleanLog(s.g, s.flash.factory, FirstErased(s.flash.factory))
    requires n <= FirstErased(s.flash.factory)
    ensures
      var p := s.flash.factory;
      Starts(s.g, Flash(Prefix(s.g, p, n), ErasedPage(s.g), p), PartOf(s.g, p, n))
  {
    hide Recover, Prefix, CleanLog, Replay, FirstErased;
    var p := s.flash.factory;
    var f := Flash(Prefix(s.g, p, n), ErasedPage(s.g), p);
    PrefixIsClean(s.g, p, n);
    ErasedPageIsLog(s.g);
    if LastStatus(p[..n]) == Valid {
      HoldsStarts(s.g, f, PartOf(s.g, p, n));
    } else {
      NoValidPageFormats(s.g, f);
    }
  }

  /** The whole snapshot with the Valid record added. */
  lemma WithRecord(s: Store, c: Mirror)
    requires Sized(s) && FactoryHolds(s.g, s.flash.factory, c) && FirstErased(s.flash.factory) < s.g.blocks
    ensures
      var p := s.flash.factory;
      var u := FirstErased(p);
      Starts(s.g, Flash(Prefix(s.g, p, u)[u := StatusBlock(s.g, Valid)], ErasedPage(s.g), p), c)
  {
    hide Recover, Prefix, Replay, CleanLog, FirstErased, ErasedPage, LastStatus, BlockStatus, ReplayBlock,
         LoadableBlock;
    var p := s.flash.factory;
    var u := FirstErased(p);
    HoldsIsLog(s.g, p, c);
    WholePrefix(s.g, p, u);
    StatusBlockFacts(s.g, Valid, c);
    ExtendLog(s.g, p, u, StatusBlock(s.g, Valid), EmptyMirror(s.g));
    var q := p[u := StatusBlock(s.g, Valid)];
    LogEnd(s.g, q, u + 1);
    RecordIsClean(s.g, p, u);
    ErasedPageIsLog(s.g);
    HoldsStarts(s.g, Flash(q, ErasedPage(s.g), p), c);
  }

  lemma RecordIsClean(g: Geometry, p: PageImage, u: nat)
    requires g.Valid() && CleanLog(g, p, u) && u < |p|
    ensures CleanLog(g, p[u := StatusBlock(g, Valid)], u + 1)
  {
    StatusBlockFacts(g, Valid, []);
    ExtendLog(g, p, u, StatusBlock(g, Valid), []);
    assert CleanBlock(g, StatusBlock(g, Valid));
  }

  /**
   A snapshot that fills its page cannot be restored: the call fails, and leaves no page valid in RAM.  The
   copy is complete on flash all the same, so the next restart finds the whole snapshot.
   */
  lemma FullSnapshotNeedsRestart(s: Store, c: Mirror)
    requires Steady(s) && FactoryHolds(s.g, s.flash.factory, c) && FirstErased(s.flash.factory) == s.g.blocks
    ensures Sized(s)
    ensures
      var (t, ok) := RestoreFromFactory(s);
      && !ok && FindReadPage(t) == None && t.cache == EmptyMirror(s.g)
      && Starts(s.g, t.flash, c)
  {
    hide RestoreFromFactory, Restored, Prefix, Steady, Starts, FirstErased, CleanLog, Replay, PartOf;
    SteadySized(s);
    RestoredFacts(s);
    RestoreRecords(s);
    WholeIsValid(s.g, s.flash.factory, c);
    PartStarts(s, s.g.blocks);
  }
}
