/**
 The factory page: what a snapshot puts there, and what a restore makes of it, for any contents.
 */
module EmuFactory {
  import opened Prelude
  import opened EmuLog
  import opened EmuModel
  import opened EmuAppend
  import opened EmuTransfer
  import opened EmuSteady
  import opened EmuRead
  import opened EmuRestart

  // ---------------------------------------------------------------- copying a page

  /** The first `n` blocks of a page, and erased blocks after them. */
  function Prefix(g: Geometry, p: PageImage, n: nat): PageImage
    requires SizedPage(g, p) && n <= |p|
    ensures SizedPage(g, Prefix(g, p, n))
  {
    p[..n] + seq(|p| - n, _ => ErasedBlock(g))
  }

  /** The events of copying blocks `b` to `u`. */
  function CopyEvents(g: Geometry, f: Flash, from: PageId, to: PageId, b: nat, u: nat): (r: seq<Event>)
    requires SizedFlash(g, f) && b <= u <= g.blocks
    ensures |r| == u - b
  {
    var p := f.Get(from);
    seq(u - b, i requires 0 <= i < u - b => Event(f.With(to, Prefix(g, p, b + i)), Program(to, b + i, p[b + i])))
  }

  lemma PrefixNext(g: Geometry, p: PageImage, n: nat)
    requires SizedPage(g, p) && n < |p|
    ensures Prefix(g, p, n)[n := p[n]] == Prefix(g, p, n + 1)
    ensures IsErased(Prefix(g, p, n)[n])
  {
    ErasedBlockIsNeutral(g, []);
  }

  lemma CopyStep(s: Store, from: PageId, to: PageId, b: nat, u: nat)
    requires Sized(s) && from != to && b < u <= s.g.blocks
    requires s.flash.Get(to) == Prefix(s.g, s.flash.Get(from), b)
    ensures
      var p := s.flash.Get(from);
      var t := ProgramBlock(s, to, b, p[b]);
      && Sized(t) && t.flash.Get(from) == p && t.flash.Get(to) == Prefix(s.g, p, b + 1)
      && t.flash == s.flash.With(to, t.flash.Get(to))
      && s.trace + CopyEvents(s.g, s.flash, from, to, b, u) ==
         t.trace + CopyEvents(s.g, t.flash, from, to, b + 1, u)
  {
    hide Prefix, CopyEvents;
    var p := s.flash.Get(from);
    PrefixNext(s.g, p, b);
    var t := ProgramBlock(s, to, b, p[b]);
    FirstEvent(s.g, s.flash, from, to, b, u);
    EventsAgree(s.g, s.flash, t.flash, from, to, b + 1, u);
  }

  lemma FirstEvent(g: Geometry, f: Flash, from: PageId, to: PageId, b: nat, u: nat)
    requires SizedFlash(g, f) && b < u <= g.blocks && f.Get(to) == Prefix(g, f.Get(from), b)
    ensures CopyEvents(g, f, from, to, b, u) ==
            [Event(f, Program(to, b, f.Get(from)[b]))] + CopyEvents(g, f, from, to, b + 1, u)
  {
    hide Prefix;
    assert f.With(to, f.Get(to)) == f;
  }

  /** The events depend on the source page and the bystanders only. */
  lemma EventsAgree(g: Geometry, e: Flash, f: Flash, from: PageId, to: PageId, b: nat, u: nat)
    requires SizedFlash(g, e) && SizedFlash(g, f) && b <= u <= g.blocks && from != to
    requires f == e.With(to, f.Get(to))
    ensures CopyEvents(g, e, from, to, b, u) == CopyEvents(g, f, from, to, b, u)
  {
    hide Prefix;
    var x, y := CopyEvents(g, e, from, to, b, u), CopyEvents(g, f, from, to, b, u);
    forall i | 0 <= i < u - b ensures x[i] == y[i] {
      assert e.Get(from) == f.Get(from);
      assert x[i].before == e.With(to, Prefix(g, e.Get(from), b + i)) == y[i].before;
    }
  }

  /** Copying into an erased page, whatever the other one holds: everything before its first erased block. */
  lemma {:induction false} CopyFormula(s: Store, from: PageId, to: PageId, b: nat)
    requires Sized(s) && from != to && b <= FirstErased(s.flash.Get(from))
    requires s.flash.Get(to) == Prefix(s.g, s.flash.Get(from), b)
    ensures
      var p := s.flash.Get(from);
      var u := FirstErased(p);
      CopyPage(s, from, to, b) ==
      s.(flash := s.flash.With(to, Prefix(s.g, p, u)),
         trace := s.trace + CopyEvents(s.g, s.flash, from, to, b, u))
    decreases s.g.blocks - b
  {
    hide Prefix, CopyEvents;
    var p := s.flash.Get(from);
    var u := FirstErased(p);
    if b == u {
      NoEvents(s, from, to, b);
    } else {
      CopyStep(s, from, to, b, u);
      CopyFormula(ProgramBlock(s, to, b, p[b]), from, to, b + 1);
    }
  }

  lemma NoEvents(s: Store, from: PageId, to: PageId, b: nat)
    requires Sized(s) && b <= s.g.blocks
    ensures s.trace + CopyEvents(s.g, s.flash, from, to, b, b) == s.trace
  {
  }

  lemma ErasedPrefix(g: Geometry, p: PageImage)
    requires SizedPage(g, p)
    ensures Prefix(g, p, 0) == ErasedPage(g)
  {
  }

  /** What the copied part of a page is worth as a log. */
  lemma PrefixIsLog(g: Geometry, p: PageImage, n: nat)
    requires SizedPage(g, p) && n <= FirstErased(p)
    ensures IsLog(g, Prefix(g, p, n), n)
    ensures FirstErased(Prefix(g, p, n)) == n
    ensures LastStatus(Prefix(g, p, n)) == LastStatus(p[..n])
    ensures Prefix(g, p, n)[..n] == p[..n]
  {
    ErasedBlockIsNeutral(g, []);
    var q := Prefix(g, p, n);
    assert q[..n] == p[..n];
    forall b | 0 <= b < n ensures !IsErased(q[b]) {
      assert !IsErased(p[b]);
    }
    ErasedSuffix(g, q, n);
    LogEnd(g, q, n);
  }

  lemma WholePrefix(g: Geometry, p: PageImage, u: nat)
    requires IsLog(g, p, u)
    ensures Prefix(g, p, u) == p
  {
    forall i | u <= i < |p| ensures Prefix(g, p, u)[i] == p[i] {
      assert IsErased(p[i]);
      assert p[i] == ErasedBlock(g);
    }
  }

  /** Copying programs erased blocks only, and with something. */
  lemma CopyIsOnce(s: Store, from: PageId, to: PageId, u: nat)
    requires Sized(s) && u <= FirstErased(s.flash.Get(from))
    ensures WriteOnceTrace(s.g, s.trace, s.trace + CopyEvents(s.g, s.flash, from, to, 0, u))
  {
    hide Prefix;
    var p := s.flash.Get(from);
    var events := CopyEvents(s.g, s.flash, from, to, 0, u);
    forall i | 0 <= i < u ensures WriteOnce(s.g, events[i]) {
      PrefixNext(s.g, p, i);
    }
  }

  /** Copying block by block up to the first erased one reproduces a log exactly. */
  lemma CopyReproduces(s: Store, from: PageId, to: PageId)
    requires Sized(s) && from != to && s.flash.Get(to) == ErasedPage(s.g)
    requires IsLog(s.g, s.flash.Get(from), FirstErased(s.flash.Get(from)))
    ensures
      var t := CopyPage(s, from, to, 0);
      && t.flash == s.flash.With(to, s.flash.Get(from))
      && t == s.(flash := t.flash, trace := t.trace)
      && WriteOnceTrace(s.g, s.trace, t.trace)
  {
    hide Prefix, CopyEvents, CopyPage;
    var p := s.flash.Get(from);
    ErasedPrefix(s.g, p);
    CopyFormula(s, from, to, 0);
    CopyIsOnce(s, from, to, FirstErased(p));
    WholePrefix(s.g, p, FirstErased(p));
  }

  // ---------------------------------------------------------------- the snapshot

  /** A page that can be restored: a clean log, valid, rebuilding the mirror `c`. */
  ghost predicate FactoryHolds(g: Geometry, p: PageImage, c: Mirror) {
    var u := FirstErased(p);
    && CleanLog(g, p, u) && 1 <= u && LastStatus(p) == Valid
    && Replay(EmptyMirror(g), p[..u]) == c
  }

  /** The snapshot is the active page itself, with everything in the mirror made durable first. */
  lemma StoreFacts(s: Store)
    requires Sized(s) && Sound(s)
    ensures
      var (t, ok) := StoreToFactory(s);
      && ok && Sound(t)
      && t.cache == s.cache
      && t.flash.factory == t.flash.Get(ActivePage(t))
      && FactoryHolds(t.g, t.flash.factory, s.cache)
      && WriteOnceTrace(s.g, s.trace, t.trace)
  {
    hide Flush, Steady, Mirrors, WriteOnceTrace, CleanLog, CopyPage;
    var pending :| Mirrors(s, pending);
    FlushSteady(s, pending);
    SyncOnce(s);
    var f := Flush(s).0;
    FindPages(f);
    SnapshotFacts(f);
    WriteOnceJoin(s.g, s.trace, f.trace, StoreToFactory(s).0.trace);
  }

  /** The copying part of the snapshot. */
  function Snapshot(f: Store, page: PageId): Store
    requires Sized(f) && page != Factory
  {
    assert Sized(SetStatus(ErasePage(f, Factory), Factory, Erased));
    CopyPage(SetStatus(ErasePage(f, Factory), Factory, Erased), page, Factory, 0)
  }

  lemma SnapshotCopies(f: Store, page: PageId)
    requires Sized(f) && page != Factory && IsLog(f.g, f.flash.Get(page), FirstErased(f.flash.Get(page)))
    ensures
      var t := Snapshot(f, page);
      && t.flash == f.flash.With(Factory, f.flash.Get(page))
      && t == f.(flash := t.flash, trace := t.trace, status := f.status.With(Factory, Erased))
      && WriteOnceTrace(f.g, f.trace, t.trace)
  {
    hide CopyPage, FirstErased, IsLog;
    var s1 := SetStatus(ErasePage(f, Factory), Factory, Erased);
    assert Sized(s1);
    CopyReproduces(s1, page, Factory);
    WriteOnceJoin(f.g, f.trace, s1.trace, CopyPage(s1, page, Factory, 0).trace);
  }

  /** A store stays what it is when only the factory page and its status change. */
  lemma FactoryAside(s: Store, t: Store, pending: map<nat, Word>)
    requires Steady(s) && Mirrors(s, pending) && Sized(t)
    requires t.flash == s.flash.With(Factory, t.flash.factory)
    requires t.status == s.status.With(Factory, t.status.factory)
    requires t == s.(flash := t.flash, trace := t.trace, status := t.status)
    ensures Steady(t) && Mirrors(t, pending) && ActivePage(t) == ActivePage(s)
    ensures Durable(t, ActivePage(t)) == Durable(s, ActivePage(s))
  {
    hide FirstErased, LastStatus, FormattedPage, Replay, ErasedBlock, ReplayBlock, Overlay, CleanLog, EmptyMirror;
    var page := ActivePage(s);
    assert ActivePage(t) == page && t.flash.Get(page) == s.flash.Get(page);
    assert t.flash.Get(Other(page)) == s.flash.Get(Other(page));
  }

  lemma ActiveHolds(s: Store)
    requires Steady(s)
    ensures FactoryHolds(s.g, s.flash.Get(ActivePage(s)), Durable(s, ActivePage(s)))
    ensures Sized(s) && ActivePage(s) != Factory
  {
  }

  /** From a flushed store. */
  lemma SnapshotFacts(f: Store)
    requires Steady(f) && Mirrors(f, map[]) && f.cache == Durable(f, ActivePage(f))
    ensures Sized(f) && ActivePage(f) != Factory
    ensures
      var s2 := Snapshot(f, ActivePage(f));
      var t := SetStatus(s2, Factory, s2.status.Get(ActivePage(f)));
      && Steady(t) && Mirrors(t, map[]) && t.cache == f.cache
      && ActivePage(t) == ActivePage(f)
      && t.flash.factory == t.flash.Get(ActivePage(f))
      && FactoryHolds(t.g, t.flash.factory, f.cache)
      && WriteOnceTrace(f.g, f.trace, t.trace)
  {
    hide Snapshot, Steady, Mirrors, FactoryHolds, WriteOnceTrace, Durable, FirstErased, Sized;
    ActiveHolds(f);
    var page := ActivePage(f);
    HoldsIsLog(f.g, f.flash.Get(page), f.cache);
    SnapshotCopies(f, page);
    var s2 := Snapshot(f, page);
    var t := SetStatus(s2, Factory, s2.status.Get(page));
    SizedAside(f, t);
    FactoryAside(f, t, map[]);
  }

  lemma HoldsIsLog(g: Geometry, p: PageImage, c: Mirror)
    requires FactoryHolds(g, p, c)
    ensures IsLog(g, p, FirstErased(p)) && SizedPage(g, p) && LastStatus(p) == Valid
  {
  }

  lemma SizedAside(s: Store, t: Store)
    requires Sized(s) && SizedPage(s.g, t.flash.factory) && t.flash == s.flash.With(Factory, t.flash.factory)
    requires t == s.(flash := t.flash, trace := t.trace, status := t.status)
    ensures Sized(t)
  {
  }

  // ---------------------------------------------------------------- the restore

  /** Blank runtime pages, then the copy. */
  function Restored(s: Store): Store
    requires Sized(s)
  {
    assert Sized(SetStatus(s, Factory, LastStatus(s.flash.factory)));
    CopyPage(Blank(SetStatus(s, Factory, LastStatus(s.flash.factory)), false), Factory, Page1, 0)
  }

  /** For any contents of the factory page. */
  lemma RestoredFacts(s: Store)
    requires Sized(s)
    ensures
      var u := FirstErased(s.flash.factory);
      var b := Blank(SetStatus(s, Factory, LastStatus(s.flash.factory)), false);
      var t := Restored(s);
      && Sized(t) && t.g == s.g && t.staged == ClearedBlock(s.g)
      && t.flash == Flash(Prefix(s.g, s.flash.factory, u), ErasedPage(s.g), s.flash.factory)
      && t.status == Statuses(Erased, Erased, LastStatus(s.flash.factory))
      && t.cache == EmptyMirror(s.g) && !t.cacheDirty
      && SizedFlash(s.g, b.flash) && t.trace == b.trace + CopyEvents(s.g, b.flash, Factory, Page1, 0, u)
      && WriteOnceTrace(s.g, s.trace, t.trace)
  {
    hide Blank, CopyPage, Prefix, CopyEvents, WriteOnceTrace, FirstErased, LastStatus;
    var s1 := SetStatus(s, Factory, LastStatus(s.flash.factory));
    assert Sized(s1);
    BlankFacts(s1, false);
    var b := Blank(s1, false);
    ErasedPrefix(s.g, s.flash.factory);
    CopyFormula(b, Factory, Page1, 0);
    CopyIsOnce(b, Factory, Page1, FirstErased(s.flash.factory));
    WriteOnceJoin(s.g, s.trace, b.trace, Restored(s).trace);
  }

  lemma NeverWritesFactory(s: Store)
    ensures FindWritePage(s) != Some(Factory)
  {
  }

  lemma RestoreUnfolded(s: Store)
    requires Sized(s) && LastStatus(s.flash.factory) == Valid
    ensures Sized(Restored(s))
    ensures
      var s4 := Restored(s);
      var s5 := WritePageStatus(s4, Page1, Valid);
      RestoreFromFactory(s) ==
      if s5.None? then (FlushBlock(s4), false)
      else
        var s6 := WritePageStatus(s5.value, Page2, Formatted);
        if s6.None? then (FlushBlock(s5.value), false) else Cache(s6.value.(next := Cursor(Page1, ORIGIN)))
  {
    hide CopyPage, WritePageStatus, Cache, Blank, FlushBlock;
    NeverWritesFactory(s);
    var s1 := SetStatus(s, Factory, LastStatus(s.flash.factory));
    assert Sized(s1);
    assert RefreshPageStatus(s, Factory) == s1;
    BlankFacts(s1, false);
  }

  /** A factory page that is not valid is left alone, and so is everything else. */
  lemma RestoreRefused(s: Store)
    requires Sized(s) && LastStatus(s.flash.factory) != Valid
    ensures RestoreFromFactory(s) == (s.(status := s.status.With(Factory, LastStatus(s.flash.factory))), false)
  {
    NeverWritesFactory(s);
  }

  /** The store with both records written. */
  function Completed(s4: Store): (r: Store)
    requires Sized(s4) && End(s4, Page1) < s4.g.blocks && s4.flash.page2 == ErasedPage(s4.g) && 1 <= s4.g.blocks
    requires s4.staged == ClearedBlock(s4.g)
    ensures Sized(r) && r.g == s4.g
  {
    StampedKeeps(s4, Page1, Valid);
    ErasedPageIsLog(s4.g);
    StampedKeeps(Stamped(s4, Page1, Valid), Page2, Formatted);
    Stamped(Stamped(s4, Page1, Valid), Page2, Formatted).(next := Cursor(Page1, ORIGIN))
  }

  /** The two records that end a restore, on any contents with room for the first. */
  lemma RestoreRecords(s: Store)
    requires Sized(s) && LastStatus(s.flash.factory) == Valid
    ensures
      var s4 := Restored(s);
      var u := FirstErased(s.flash.factory);
      && Sized(s4) && s4.g == s.g && s4.staged == ClearedBlock(s.g)
      && End(s4, Page1) == u && s4.flash.page2 == ErasedPage(s.g) && 1 <= s.g.blocks
      && RestoreFromFactory(s) == if u < s.g.blocks then Cache(Completed(s4)) else (s4, false)
  {
    hide RestoreFromFactory, WritePageStatus, Cache, Restored, Prefix, Stamped;
    RestoreUnfolded(s);
    RestoredFacts(s);
    var s4 := Restored(s);
    var u := FirstErased(s.flash.factory);
    PrefixIsLog(s.g, s.flash.factory, u);
    VacantFacts(s4, Page2);
    StatusRecord(s4, Page1, Valid);
    if u < s.g.blocks {
      StampedKeeps(s4, Page1, Valid);
      StatusRecord(Stamped(s4, Page1, Valid), Page2, Formatted);
    }
  }

  lemma StampedKeeps(s: Store, page: PageId, status: PageStatus)
    requires Sized(s) && s.staged == ClearedBlock(s.g) && End(s, page) < s.g.blocks && status != Erased
    ensures
      var t := Stamped(s, page, status);
      && Sized(t) && t.g == s.g && t.staged == ClearedBlock(s.g)
      && t.flash == s.flash.With(page, s.flash.Get(page)[End(s, page) := StatusBlock(s.g, status)])
      && t.trace == s.trace + [Event(s.flash, Program(page, End(s, page), StatusBlock(s.g, status)))]
      && WriteOnceTrace(s.g, s.trace, t.trace)
  {
    StatusBlockFacts(s.g, status, []);
  }

  lemma CompletedIsOnce(s4: Store)
    requires Sized(s4) && s4.staged == ClearedBlock(s4.g)
    requires End(s4, Page1) < s4.g.blocks && s4.flash.page2 == ErasedPage(s4.g) && 1 <= s4.g.blocks
    ensures Sized(Completed(s4)) && WriteOnceTrace(s4.g, s4.trace, Completed(s4).trace)
  {
    hide Stamped, FirstErased, StatusBlock, WriteOnceTrace, ErasedPage, Sized, ClearedBlock;
    StampedKeeps(s4, Page1, Valid);
    var s5 := Stamped(s4, Page1, Valid);
    ErasedPageIsLog(s4.g);
    StampedKeeps(s5, Page2, Formatted);
    WriteOnceJoin(s4.g, s4.trace, s5.trace, Completed(s4).trace);
  }

  /** Write-once flash: a restore programs erased blocks only, whatever the factory page holds. */
  lemma RestoreIsWriteOnce(s: Store)
    requires Sized(s)
    ensures WriteOnceTrace(s.g, s.trace, RestoreFromFactory(s).0.trace)
  {
    hide RestoreFromFactory, Restored, Completed, Cache, WriteOnceTrace, Prefix, FirstErased;
    if LastStatus(s.flash.factory) != Valid {
      RestoreRefused(s);
      NothingProgrammed(s);
    } else {
      RestoredFacts(s);
      RestoreRecords(s);
      var s4 := Restored(s);
      if FirstErased(s.flash.factory) < s.g.blocks {
        CompletedIsOnce(s4);
        CacheKeeps(Completed(s4));
        WriteOnceJoin(s.g, s.trace, s4.trace, Completed(s4).trace);
      }
    }
  }

  lemma NothingProgrammed(s: Store)
    ensures WriteOnceTrace(s.g, s.trace, s.trace)
  {
  }

  /** Restoring: page 1 becomes the factory image plus one more Valid record, if there is room for it. */
  lemma RestoreFacts(s: Store, c: Mirror)
    requires Sized(s) && FactoryHolds(s.g, s.flash.factory, c)
    ensures
      var (t, ok) := RestoreFromFactory(s);
      && (ok <==> FirstErased(s.flash.factory) < s.g.blocks)
      && t.flash.factory == s.flash.factory
      && (ok ==> Steady(t) && Mirrors(t, map[]) && t.cache == c && ActivePage(t) == Page1)
      && WriteOnceTrace(s.g, s.trace, t.trace)
  {
    hide RestoreFromFactory, Restored, Completed, Cache, Prefix, Steady, WriteOnceTrace;
    var u := FirstErased(s.flash.factory);
    var s4 := Restored(s);
    RestoreIsWriteOnce(s);
    RestoredFacts(s);
    RestoreRecords(s);
    WholePrefix(s.g, s.flash.factory, u);
    if u < s.g.blocks {
      CompletedIsSteady(s4, c);
    }
  }

  /** The two records make the restored pages a steady pair. */
  lemma CompletedIsSteady(s4: Store, c: Mirror)
    requires Sized(s4) && s4.staged == ClearedBlock(s4.g)
    requires FactoryHolds(s4.g, s4.flash.page1, c) && s4.flash.page2 == ErasedPage(s4.g)
    requires s4.status == Statuses(Erased, Erased, Valid)
    requires FirstErased(s4.flash.page1) < s4.g.blocks
    ensures 1 <= s4.g.blocks
    ensures
      var s7 := Completed(s4);
      && Sized(s7)
      && var (t, ok) := Cache(s7);
         && ok && t.flash.factory == s4.flash.factory
         && Steady(t) && Mirrors(t, map[]) && t.cache == c && ActivePage(t) == Page1
  {
    hide WritePageStatus, Cache;
    StampedFacts(s4, Page1, Valid);
    var s5 := Stamped(s4, Page1, Valid);
    VacantFacts(s5, Page2);
    StampedFacts(s5, Page2, Formatted);
    var s7 := Completed(s4);
    CacheFacts(s7, Page1);
    var t := Cache(s7).0;
    ErasedBlockIsNeutral(s4.g, Durable(t, Page1));
    NoOverlay(c);
  }
}
