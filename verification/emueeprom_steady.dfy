/**
 The steady state of EmuEEPROM and what each public operation does to it: the mirror stays
 the replay of the log, capacity decides exactly when a write is refused, reads answer from
 the logical map, and nothing else ever moves.
 */
module EmuSteady {
  import opened Prelude
  import opened EmuLog
  import opened EmuModel
  import opened EmuAppend
  import opened EmuTransfer

  function ActivePage(s: Store): PageId {
    if s.status.page1 == Valid then Page1 else Page2
  }

  /** One runtime page is valid and holds a clean log, the other holds just its Formatted record. */
  ghost predicate Steady(s: Store) {
    var page := ActivePage(s);
    && Appending(s, page)
    && s.status.Get(page) == Valid == LastStatus(s.flash.Get(page))
    && s.status.Get(Other(page)) == Formatted
    && 1 <= s.g.blocks && s.flash.Get(Other(page)) == FormattedPage(s.g)
  }

  /** Cache-only writes laid over a mirror. */
  function Overlay(c: Mirror, pending: map<nat, Word>): (r: Mirror)
    ensures |r| == |c|
  {
    seq(|c|, i requires 0 <= i < |c| => if i in pending then pending[i] else c[i])
  }

  /** The mirror is the log, then the staged block, then the cache-only writes not persisted yet. */
  ghost predicate Mirrors(s: Store, pending: map<nat, Word>) {
    && s.cache == Overlay(View(s, ActivePage(s)), pending)
    && (pending != map[] ==> s.cacheDirty)
    && forall a <- pending :: pending[a] != ERASED_VALUE
  }

  /** A steady store whose mirror is the log, the staged block and some cache-only writes. */
  ghost predicate Sound(s: Store) {
    Steady(s) && exists pending :: Mirrors(s, pending)
  }

  lemma NoOverlay(c: Mirror)
    ensures Overlay(c, map[]) == c
  {
  }

  lemma FindPages(s: Store)
    requires Steady(s)
    ensures FindWritePage(s) == Some(ActivePage(s)) == FindReadPage(s)
    ensures ActivePage(s) != Factory && Other(Other(ActivePage(s))) == ActivePage(s)
  {
  }

  // ---------------------------------------------------------------- flushing the staged block

  lemma FlushBlockSteady(s: Store)
    requires Steady(s)
    ensures
      var t := FlushBlock(s);
      && Steady(t) && ActivePage(t) == ActivePage(s)
      && t.staged == ClearedBlock(s.g)
      && t.flash.factory == s.flash.factory
      && View(t, ActivePage(s)) == View(s, ActivePage(s)) == Durable(t, ActivePage(s))
      && OneProgram(s, t, ActivePage(s), End(s, ActivePage(s)))
      && End(t, ActivePage(s)) == End(s, ActivePage(s)) + (if s.staged.dirty then 1 else 0)
  {
    FlushAppending(s, ActivePage(s));
  }

  // ---------------------------------------------------------------- page transfer

  /** A finished transfer is a steady state whose whole mirror is durable. */
  lemma SwappedIsSteady(s: Store, t: Store, source: PageId)
    requires source != Factory && Sized(s)
    requires s.status.Get(source) == Valid && 1 <= s.g.blocks
    requires Swapped(s, t, source) && 1 <= End(t, Other(source))
    ensures Steady(t) && ActivePage(t) == Other(source)
    ensures View(t, Other(source)) == Durable(t, Other(source)) == s.cache
    ensures Mirrors(t, map[])
  {
    ErasedBlockIsNeutral(s.g, Durable(t, Other(source)));
    NoOverlay(s.cache);
  }

  /** A transfer with a vacant target always succeeds and keeps the logical contents. */
  lemma TransferWorks(s: Store, source: PageId)
    requires CanTransfer(s, source) && FindReadPage(s) == Some(source)
    ensures
      var (t, status) := PageTransfer(s);
      && status == WriteOk
      && Steady(t) && ActivePage(t) == Other(source)
      && t.cache == s.cache == Durable(t, Other(source)) && Mirrors(t, map[])
      && t.staged == ClearedBlock(s.g) && !t.cacheDirty
      && t.flash.factory == s.flash.factory && t.status.factory == s.status.factory
      && End(t, Other(source)) == End(s, Other(source)) + 2 + BlocksFor(s.g, LiveCount(s.cache)) <= s.g.blocks
      && t.next == Cursor(Other(source), Position(End(t, Other(source)), 0))
      && TransferTrace(SceneOf(s, source), s.trace, t.trace)
      && |s.trace| < |t.trace| && Window(SceneOf(s, source), t.trace[|t.trace| - 1].before)
  {
    hide Window, CopyToOther, SwapPages, TransferTrace, Copying;
    CopyFacts(s, source);
    var c := CopyToOther(s, source).0;
    CopyingBasics(c, SceneOf(s, source));
    SwapFacts(c, SceneOf(s, source));
    var t := SwapPages(c, source).0;
    TraceGrows(SceneOf(s, source), s.trace, c.trace);
    SwappedIsSteady(c, t, source);
    TraceJoin(SceneOf(s, source), s.trace, c.trace, t.trace);
  }

  lemma CopyingBasics(s: Store, sc: Scene)
    requires Copying(s, sc, |s.cache|)
    ensures Sized(s) && s.status.Get(sc.source) == Valid && s.flash.factory == sc.factory && s.g == sc.g
    ensures 1 <= End(s, Other(sc.source))
  {
  }

  /** From a steady state the flush that precedes the transfer leaves it startable. */
  lemma SteadyCanTransfer(s: Store)
    requires Steady(s)
    ensures
      var t := FlushBlock(s);
      CanTransfer(t, ActivePage(s)) && FindReadPage(t) == Some(ActivePage(s))
    ensures End(FlushBlock(s), Other(ActivePage(s))) == 1
  {
    hide FlushBlock, Appending, View, Durable;
    SteadySized(s);
    FlushBlockSteady(s);
    SteadySized(FlushBlock(s));
    FormattedPageFacts(s.g);
  }

  lemma SteadySized(s: Store)
    requires Steady(s)
    ensures Sized(s)
  {
  }

  lemma FlushTwice(s: Store)
    requires Sized(s)
    ensures PageTransfer(FlushBlock(s)) == PageTransfer(s)
  {
    hide CopyToOther, SwapPages;
  }

  /** Transfer and capacity: never PageFull, roles swapped, logical map unchanged, everything durable. */
  lemma TransferSteady(s: Store)
    requires Steady(s)
    ensures
      var page := ActivePage(s);
      var (t, status) := PageTransfer(s);
      && status == WriteOk
      && Steady(t) && ActivePage(t) == Other(page)
      && t.cache == s.cache == Durable(t, Other(page)) && Mirrors(t, map[])
      && t.staged == ClearedBlock(s.g) && !t.cacheDirty
      && t.flash.factory == s.flash.factory && t.status.factory == s.status.factory
      && End(t, Other(page)) == 3 + BlocksFor(s.g, LiveCount(s.cache)) <= s.g.blocks
      && t.next == Cursor(Other(page), Position(End(t, Other(page)), 0))
      && OneProgram(s, FlushBlock(s), page, End(s, page))
      && TransferTrace(SceneOf(FlushBlock(s), page), FlushBlock(s).trace, t.trace)
      && |s.trace| <= |FlushBlock(s).trace| < |t.trace|
      && Window(SceneOf(FlushBlock(s), page), t.trace[|t.trace| - 1].before)
  {
    hide Window, PageTransfer, TransferTrace, CanTransfer, View, Appending, LastStatus;
    SteadySized(s);
    FlushBlockSteady(s);
    SteadyCanTransfer(s);
    FlushTwice(s);
    TransferWorks(FlushBlock(s), ActivePage(s));
  }

  // ---------------------------------------------------------------- writing

  /** Does the active page still have a slot? */
  predicate HasRoom(s: Store) {
    End(s, ActivePage(s)) < s.g.blocks
  }

  /** The exact condition under which a plain write in range is accepted. */
  predicate Accepts(s: Store)
    requires 1 <= s.g.entries
  {
    HasRoom(s) || BlocksFor(s.g, LiveCount(s.cache)) + 4 <= s.g.blocks
  }

  lemma {:induction false} OverlayUpdate(c: Mirror, pending: map<nat, Word>, a: nat, v: Word)
    requires a < |c|
    ensures Overlay(c[a := v], pending - {a}) == Overlay(c, pending)[a := v]
    ensures Overlay(c, pending[a := v]) == Overlay(c, pending)[a := v]
  {
  }

  /** A plain write that finds room. */
  lemma WriteWithRoom(s: Store, e: Entry, pending: map<nat, Word>)
    requires Steady(s) && Mirrors(s, pending) && UserEntry(s.g, e) && HasRoom(s)
    ensures
      var page := ActivePage(s);
      var (t, status) := WriteInternal(s, e);
      && status == WriteOk
      && Steady(t) && ActivePage(t) == page
      && Mirrors(t, pending - {e.address})
      && t.cache == s.cache[e.address := e.value]
      && View(t, page) == ReplayEntry(View(s, page), e)
      && t.flash.factory == s.flash.factory
      && OneProgram(s, t, page, End(s, page))
      && t.cacheDirty == s.cacheDirty
      && (t.staged.dirty ==> t.flash == s.flash && t.staged.entries == s.staged.entries + 1)
  {
    hide WriteInternal;
    var page := ActivePage(s);
    FindPages(s);
    AppendEntry(s, page, e);
    OverlayUpdate(View(s, page), pending, e.address, e.value);
  }

  /** A plain write on a full page: a transfer, then a second attempt. */
  lemma WriteWhenFull(s: Store, e: Entry)
    requires Steady(s) && e.address < s.g.addresses && !HasRoom(s)
    ensures
      var t := PageTransfer(Located(s, ActivePage(s))).0;
      && t == PageTransfer(s).0
      && Write(s, e) == WriteInternal(t, e)
  {
    hide PageTransfer;
    FindPages(s);
    AppendToFull(s, ActivePage(s), e);
    LocatedFacts(s, ActivePage(s));
    var s1 := Located(s, ActivePage(s));
    assert Steady(s1);
    CursorIsIrrelevant(s, s1);
    TransferSteady(s1);
  }

  /** A transfer starts by forgetting the cached append position. */
  lemma CursorIsIrrelevant(s: Store, s1: Store)
    requires Steady(s) && Steady(s1) && s1 == s.(next := s1.next) && !s.staged.dirty
    ensures PageTransfer(s1) == PageTransfer(s)
  {
    hide Dump, SwapPages, WritePageStatus, Appending, View, Durable, TransferTrace;
    SteadySized(s);
    SteadySized(s1);
    SteadyCanTransfer(s);
    SteadyCanTransfer(s1);
    OpenedTrace(s, ActivePage(s));
    OpenedTrace(s1, ActivePage(s));
    assert Opened(s, ActivePage(s)) == Opened(s1, ActivePage(s));
  }

  /** A refused write: the page is full and stays full after the transfer; the map is unchanged. */
  lemma WriteRefused(s: Store, e: Entry)
    requires Steady(s) && e.address < s.g.addresses && !Accepts(s)
    ensures
      var (t, status) := Write(s, e);
      && status == PageFull
      && Steady(t) && ActivePage(t) == Other(ActivePage(s))
      && t.cache == s.cache && Mirrors(t, map[])
  {
    hide PageTransfer, Write;
    WriteWhenFull(s, e);
    TransferSteady(s);
    var t := PageTransfer(s).0;
    FindPages(t);
    AppendToFull(t, ActivePage(t), e);
    LocatedFacts(t, ActivePage(t));
  }

  /** What a plain write that is accepted at once, or on a page just transferred, amounts to. */
  ghost predicate Outcome(s: Store, t: Store, e: Entry, accepted: bool) {
    && Steady(t)
    && (exists p :: Mirrors(t, p))
    && e.address < |s.cache|
    && t.cache == (if accepted then s.cache[e.address := e.value] else s.cache)
    && t.flash.factory == s.flash.factory
  }

  lemma OutcomeWithRoom(s: Store, e: Entry, pending: map<nat, Word>)
    requires Steady(s) && Mirrors(s, pending) && UserEntry(s.g, e) && HasRoom(s)
    ensures WriteInternal(s, e).1 == WriteOk && Outcome(s, WriteInternal(s, e).0, e, true)
  {
    hide WriteInternal, Mirrors, Steady, View;
    SteadySized(s);
    WriteWithRoom(s, e, pending);
    assert Mirrors(WriteInternal(s, e).0, pending - {e.address});
  }

  lemma OutcomeAfterTransfer(s: Store, e: Entry)
    requires Steady(s) && UserEntry(s.g, e) && !HasRoom(s)
    ensures
      var (t, status) := Write(s, e);
      && (status == WriteOk <==> Accepts(s)) && (status == WriteOk || status == PageFull)
      && Outcome(s, t, e, status == WriteOk)
  {
    hide PageTransfer, Mirrors, WriteInternal, Steady, Write, LiveCount, BlocksFor, TransferTrace, Window, OneProgram;
    SteadySized(s);
    WriteWhenFull(s, e);
    TransferSteady(s);
    var t := PageTransfer(s).0;
    if Accepts(s) {
      OutcomeWithRoom(t, e, map[]);
    } else {
      WriteRefused(s, e);
      RefusedKeepsFactory(t, e);
      assert Mirrors(Write(s, e).0, map[]);
    }
  }

  lemma RefusedKeepsFactory(s: Store, e: Entry)
    requires Steady(s) && UserEntry(s.g, e) && !HasRoom(s)
    ensures WriteInternal(s, e).0.flash == s.flash
  {
    hide WriteInternal;
    FindPages(s);
    AppendToFull(s, ActivePage(s), e);
    LocatedFacts(s, ActivePage(s));
  }

  /** Every plain write to an address in range: accepted exactly when there is, or can be made, room. */
  lemma WriteSteady(s: Store, e: Entry, pending: map<nat, Word>)
    requires Steady(s) && Mirrors(s, pending) && UserEntry(s.g, e)
    ensures
      var (t, status) := Write(s, e);
      && (status == WriteOk <==> Accepts(s))
      && (status == WriteOk || status == PageFull)
      && Steady(t)
      && (exists p :: Mirrors(t, p))
      && t.cache == (if status == WriteOk then s.cache[e.address := e.value] else s.cache)
      && t.flash.factory == s.flash.factory
  {
    hide PageTransfer, Mirrors, WriteInternal, Steady;
    SteadySized(s);
    if HasRoom(s) {
      OutcomeWithRoom(s, e, pending);
    } else {
      OutcomeAfterTransfer(s, e);
    }
  }

  /** A cache-only write changes the mirror and nothing else. */
  lemma CacheOnlySteady(s: Store, e: Entry, pending: map<nat, Word>)
    requires Steady(s) && Mirrors(s, pending) && UserEntry(s.g, e)
    ensures
      var (t, status) := Write(s, e, true);
      && status == WriteOk
      && t == s.(cache := s.cache[e.address := e.value], cacheDirty := true)
      && Steady(t)
      && Mirrors(t, pending[e.address := e.value])
  {
    OverlayUpdate(View(s, ActivePage(s)), pending, e.address, e.value);
  }

  /** Addresses out of range, and the reserved one, are refused without any effect. */
  lemma WriteOutOfRange(s: Store, e: Entry, cacheOnly: bool)
    requires Sized(s) && e.address >= s.g.addresses
    ensures Write(s, e, cacheOnly) == (s, WriteError)
  {
  }

  /** After `flush` everything in the mirror is durable. */
  lemma FlushSteady(s: Store, pending: map<nat, Word>)
    requires Steady(s) && Mirrors(s, pending)
    ensures
      var (t, ok) := Flush(s);
      && ok && Steady(t) && Mirrors(t, map[])
      && t.cache == s.cache == Durable(t, ActivePage(t))
      && t.staged == ClearedBlock(s.g)
      && t.flash.factory == s.flash.factory
  {
    hide PageTransfer;
    if s.cacheDirty {
      TransferSteady(s);
    } else {
      assert pending == map[];
      NoOverlay(View(s, ActivePage(s)));
      FlushBlockSteady(s);
    }
  }
}
