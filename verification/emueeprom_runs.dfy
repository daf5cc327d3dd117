/**
 Whole runs of EmuEEPROM: refinement to a map and its snapshot, write-once flash, and power cuts anywhere
 in a run of plain writes and flushes.
 */
module EmuRuns {
  import opened Prelude
  import opened EmuLog
  import opened EmuModel
  import opened EmuAppend
  import opened EmuTransfer
  import opened EmuSteady
  import opened EmuRead
  import opened EmuRestart
  import opened EmuCrash
  import opened EmuFactory

  /** The calls a user of the store can make; `Restart` is a power cycle between two calls. */
  datatype Op =
    | Put(e: Entry, cacheOnly: bool)
    | Sync
    | Move
    | Get(address: nat)
    | Query(page: PageId)
    | Reset(factoryToo: bool)
    | Restart
    | Save
    | Restore

  /** 0xFFFF stands for "absent" and is not a value to be stored. */
  predicate Storable(op: Op) {
    op.Put? ==> op.e.value != ERASED_VALUE
  }

  predicate AllStorable(ops: seq<Op>) {
    forall i :: 0 <= i < |ops| ==> Storable(ops[i])
  }

  function Step(s: Store, op: Op): (t: Store)
    requires Sized(s)
    ensures Sized(t) && t.g == s.g
  {
    match op
    case Put(e, cacheOnly) => Write(s, e, cacheOnly).0
    case Sync => Flush(s).0
    case Move => PageTransfer(s).0
    case Get(address) => Read(s, address).0
    case Query(page) => RefreshPageStatus(s, page)
    case Reset(factoryToo) => Format(s, factoryToo)
    case Restart => Recover(s.g, s.flash).(trace := s.trace)
    case Save => StoreToFactory(s).0
    case Restore => RestoreFromFactory(s).0
  }

  function Run(s: Store, ops: seq<Op>): (t: Store)
    requires Sized(s)
    ensures Sized(t) && t.g == s.g
  {
    if ops == [] then s else Step(Run(s, ops[..|ops| - 1]), ops[|ops| - 1])
  }

  /** What a store stands for: the logical map, and the map a valid factory page carries. */
  datatype Maps = Maps(live: map<nat, Word>, saved: Option<map<nat, Word>>)

  function SavedIn(g: Geometry, p: PageImage): Option<map<nat, Word>> {
    if LastStatus(p) == Valid then Some(Contents(Replay(EmptyMirror(g), p[..FirstErased(p)]))) else None
  }

  function MapsOf(s: Store): Maps {
    Maps(Contents(s.cache), SavedIn(s.g, s.flash.factory))
  }

  /** What a call means for the two maps, given the store it is made on. */
  function Meaning(m: Maps, s: Store, op: Op): Maps
    requires Sized(s)
  {
    match op
    case Put(e, cacheOnly) =>
      if e.address < s.g.addresses && (cacheOnly || Accepts(s)) then m.(live := m.live[e.address as nat := e.value])
      else m
    case Sync => m
    case Move => m
    case Get(_) => m
    case Query(_) => m
    case Reset(factoryToo) => Maps(map[], if factoryToo then None else m.saved)
    case Restart => m.(live := Contents(Durable(s, ActivePage(s))))
    case Save => m.(saved := Some(m.live))
    case Restore => if m.saved.Some? then m.(live := m.saved.value) else m
  }

  function RunMeaning(m: Maps, s: Store, ops: seq<Op>): Maps
    requires Sized(s)
  {
    if ops == [] then m
    else
      var before := ops[..|ops| - 1];
      Meaning(RunMeaning(m, s, before), Run(s, before), ops[|ops| - 1])
  }

  /** A factory page that a restore refuses, or that it can bring back with the Valid record added to it. */
  ghost predicate Restorable(g: Geometry, p: PageImage) {
    LastStatus(p) == Valid ==> 1 <= FirstErased(p) < g.blocks && CleanLog(g, p, FirstErased(p))
  }

  /** Every restore of the run finds such a page. */
  ghost predicate RestoresFit(s: Store, ops: seq<Op>)
    requires Sized(s)
  {
    ops == [] ||
    (var before := ops[..|ops| - 1];
     RestoresFit(s, before) && (ops[|ops| - 1].Restore? ==> Restorable(s.g, Run(s, before).flash.factory)))
  }

  lemma WriteInternalOnce(s: Store, e: Entry)
    requires Steady(s) && UserEntry(s.g, e)
    ensures WriteOnceTrace(s.g, s.trace, WriteInternal(s, e).0.trace)
  {
    hide WriteInternal, Appended;
    FindPages(s);
    if HasRoom(s) {
      AppendedOnce(s, e);
    } else {
      AppendToFull(s, ActivePage(s), e);
      LocatedFacts(s, ActivePage(s));
    }
  }

  lemma AppendedOnce(s: Store, e: Entry)
    requires Steady(s) && UserEntry(s.g, e) && HasRoom(s)
    ensures WriteOnceTrace(s.g, s.trace, WriteInternal(s, e).0.trace)
  {
    hide WriteInternal;
    FindPages(s);
    AppendEntry(s, ActivePage(s), e);
  }

  lemma WriteIsOnce(s: Store, e: Entry)
    requires Steady(s) && UserEntry(s.g, e)
    ensures WriteOnceTrace(s.g, s.trace, Write(s, e).0.trace)
  {
    hide WriteInternal, PageTransfer, WriteOnceTrace;
    WriteInternalOnce(s, e);
    if !HasRoom(s) {
      WriteWhenFull(s, e);
      TransferSteady(s);
      TransferOnce(s);
      var t := PageTransfer(s).0;
      WriteInternalOnce(t, e);
      WriteOnceJoin(s.g, s.trace, t.trace, WriteInternal(t, e).0.trace);
    } else {
      RoomIsOk(s, e);
    }
  }

  lemma RoomIsOk(s: Store, e: Entry)
    requires Steady(s) && UserEntry(s.g, e) && HasRoom(s)
    ensures Write(s, e) == WriteInternal(s, e)
  {
    hide WriteInternal;
    FindPages(s);
    AppendEntry(s, ActivePage(s), e);
  }

  /** What every step guarantees. */
  ghost predicate StepGuarantee(s: Store, op: Op) {
    && Sized(s)
    && var t := Step(s, op);
       && Sound(t)
       && MapsOf(t) == Meaning(MapsOf(s), s, op)
       && WriteOnceTrace(s.g, s.trace, t.trace)
       && (op != Reset(true) && op != Save ==> t.flash.factory == s.flash.factory)
  }

  lemma PutStep(s: Store, e: Entry, cacheOnly: bool)
    requires Sound(s) && e.value != ERASED_VALUE
    ensures StepGuarantee(s, Put(e, cacheOnly))
  {
    hide Write, Steady, Mirrors, WriteOnceTrace, SavedIn, Accepts;
    var pending :| Mirrors(s, pending);
    SteadySized(s);
    if e.address >= s.g.addresses {
      WriteOutOfRange(s, e, cacheOnly);
      NothingProgrammed(s);
    } else if cacheOnly {
      CacheOnlySteady(s, e, pending);
      NothingProgrammed(s);
      ContentsUpdate(s.cache, e);
    } else {
      WriteSteady(s, e, pending);
      WriteIsOnce(s, e);
      ContentsUpdate(s.cache, e);
    }
  }

  lemma ContentsUpdate(c: Mirror, e: Entry)
    requires e.address < |c| && e.value != ERASED_VALUE
    ensures Contents(c[e.address := e.value]) == Contents(c)[e.address as nat := e.value]
  {
  }

  lemma SyncStep(s: Store)
    requires Sound(s)
    ensures StepGuarantee(s, Sync)
  {
    hide Steady, Mirrors, Flush, WriteOnceTrace, SavedIn;
    var pending :| Mirrors(s, pending);
    SteadySized(s);
    FlushSteady(s, pending);
    SyncOnce(s);
  }

  lemma MoveStep(s: Store)
    requires Sound(s)
    ensures StepGuarantee(s, Move)
  {
    hide Steady, Mirrors, PageTransfer;
    SteadySized(s);
    TransferSteady(s);
    TransferOnce(s);
  }

  lemma GetStep(s: Store, address: nat)
    requires Sound(s)
    ensures StepGuarantee(s, Get(address))
    ensures Step(s, Get(address)) == s
  {
    hide Mirrors, View, Steady, Read, SavedIn, WriteOnceTrace;
    var pending :| Mirrors(s, pending);
    SteadySized(s);
    ReadSteady(s, address, pending);
    NothingProgrammed(s);
  }

  lemma QueryStep(s: Store, page: PageId)
    requires Sound(s)
    ensures StepGuarantee(s, Query(page))
  {
    hide Mirrors, View, Steady, RefreshPageStatus, SavedIn, WriteOnceTrace;
    var pending :| Mirrors(s, pending);
    SteadySized(s);
    QuerySteady(s, page, pending);
    NothingProgrammed(s);
  }

  lemma ResetStep(s: Store, factoryToo: bool)
    requires Sound(s)
    ensures StepGuarantee(s, Reset(factoryToo))
  {
    hide Steady, Mirrors, Format;
    SteadySized(s);
    FormatFacts(s, factoryToo);
    ErasedPageIsLog(s.g);
  }

  lemma RestartStep(s: Store)
    requires Sound(s)
    ensures StepGuarantee(s, Restart)
  {
    hide Recover, Steady, Mirrors, Durable, Overlay, SavedIn, WriteOnceTrace;
    SteadySized(s);
    SteadyHolds(s);
    RecoverHolds(s.g, s.flash, Durable(s, ActivePage(s)));
    var r := Recover(s.g, s.flash);
    RestartTrace(r, s.trace);
    NothingProgrammed(s);
  }

  /** The trace is no part of what makes a store sound. */
  lemma RestartTrace(r: Store, trace: seq<Event>)
    requires Steady(r) && Mirrors(r, map[])
    ensures Steady(r.(trace := trace)) && Mirrors(r.(trace := trace), map[])
  {
    hide FirstErased, LastStatus, FormattedPage, Replay, ErasedBlock, ReplayBlock, Overlay, CleanLog, EmptyMirror;
  }

  lemma SaveStep(s: Store)
    requires Sound(s)
    ensures StepGuarantee(s, Save)
  {
    hide Steady, Mirrors, StoreToFactory, WriteOnceTrace, CleanLog;
    SteadySized(s);
    StoreFacts(s);
  }

  lemma RestoreStep(s: Store)
    requires Sound(s) && Restorable(s.g, s.flash.factory)
    ensures StepGuarantee(s, Restore)
  {
    hide Steady, Mirrors, RestoreFromFactory, WriteOnceTrace, CleanLog;
    SteadySized(s);
    if LastStatus(s.flash.factory) == Valid {
      RestoreFacts(s, Replay(EmptyMirror(s.g), s.flash.factory[..FirstErased(s.flash.factory)]));
    } else {
      var pending :| Mirrors(s, pending);
      RestoreRefused(s);
      NothingProgrammed(s);
      FactoryAside(s, RestoreFromFactory(s).0, pending);
    }
  }

  lemma StepSound(s: Store, op: Op)
    requires Sound(s) && Storable(op) && (op.Restore? ==> Restorable(s.g, s.flash.factory))
    ensures StepGuarantee(s, op)
  {
    hide Sound, StepGuarantee;
    match op {
      case Put(e, cacheOnly) => PutStep(s, e, cacheOnly);
      case Sync => SyncStep(s);
      case Move => MoveStep(s);
      case Get(address) => GetStep(s, address);
      case Query(page) => QueryStep(s, page);
      case Reset(factoryToo) => ResetStep(s, factoryToo);
      case Restart => RestartStep(s);
      case Save => SaveStep(s);
      case Restore => RestoreStep(s);
    }
  }

  /**
   Refinement and write-once flash, over whole runs: the store stays steady, it stands for the two maps that
   the calls mean, and no block is programmed twice between two erasures.
   */
  lemma {:induction false} RunRefines(s: Store, ops: seq<Op>)
    requires Sized(s) && Sound(s) && AllStorable(ops) && RestoresFit(s, ops)
    ensures
      var t := Run(s, ops);
      && Sound(t)
      && MapsOf(t) == RunMeaning(MapsOf(s), s, ops)
      && WriteOnceTrace(s.g, s.trace, t.trace)
      && (Reset(true) !in ops && Save !in ops ==> t.flash.factory == s.flash.factory)
    decreases |ops|
  {
    hide Step, Sound, MapsOf, Meaning, Restorable, WriteOnceTrace;
    if ops == [] {
      NothingProgrammed(s);
    } else {
      var before, op := ops[..|ops| - 1], ops[|ops| - 1];
      RunRefines(s, before);
      assert Storable(op);
      StepSound(Run(s, before), op);
      WriteOnceJoin(s.g, s.trace, Run(s, before).trace, Run(s, ops).trace);
    }
  }

  /** In every reachable state a read answers from the map that the run means, and NoVariable elsewhere. */
  lemma ReadAfterRun(s: Store, ops: seq<Op>, address: nat)
    requires Sized(s) && Sound(s) && AllStorable(ops) && RestoresFit(s, ops)
    ensures
      var t := Run(s, ops);
      var m := RunMeaning(MapsOf(s), s, ops).live;
      var (_, status, value) := Read(t, address);
      && (status == ReadOk <==> address in m)
      && (address in m ==> value == m[address])
      && (address < t.g.addresses && address !in m ==> status == NoVariable)
      && (address >= t.g.addresses ==> status == ReadError)
  {
    hide Run, RunMeaning, SavedIn, RestoresFit;
    RunRefines(s, ops);
    var t := Run(s, ops);
    var pending :| Mirrors(t, pending);
    ReadSteady(t, address, pending);
  }

  /** Calls that leave the factory page as it is. */
  predicate SparesFactory(ops: seq<Op>) {
    Reset(true) !in ops && Save !in ops
  }

  /** A page that fits a restore once fits every restore of such a run. */
  lemma {:induction false} FitsThroughout(s: Store, ops: seq<Op>)
    requires Sized(s) && Sound(s) && AllStorable(ops) && SparesFactory(ops)
    requires Restore in ops ==> Restorable(s.g, s.flash.factory)
    ensures RestoresFit(s, ops)
    decreases |ops|
  {
    hide Sound, Restorable, Run;
    if ops != [] {
      var before := ops[..|ops| - 1];
      FitsThroughout(s, before);
      RunRefines(s, before);
    }
  }

  /** Whether a snapshot can be restored depends on nothing but the room it left. */
  lemma SnapshotFits(g: Geometry, p: PageImage, c: Mirror)
    requires g.Valid() && FactoryHolds(g, p, c)
    ensures Restorable(g, p) <==> FirstErased(p) < g.blocks
  {
  }

  /**
   Factory round trip: a snapshot, then any run of storable calls, restores among them, that leaves the
   factory page alone, then a restore.  The map at the time of the snapshot comes back exactly when the
   snapshot left an erased block; otherwise the restore reports failure.
   */
  lemma FactoryRoundTrip(s: Store, ops: seq<Op>)
    requires Sized(s) && Sound(s) && AllStorable(ops) && SparesFactory(ops)
    requires Restore in ops ==> FirstErased(StoreToFactory(s).0.flash.factory) < s.g.blocks
    ensures
      var stored := StoreToFactory(s).0;
      var (t, ok) := RestoreFromFactory(Run(stored, ops));
      && (ok <==> FirstErased(stored.flash.factory) < s.g.blocks)
      && (ok ==> Sound(t) && Contents(t.cache) == Contents(s.cache))
      && WriteOnceTrace(s.g, s.trace, t.trace)
  {
    hide StoreToFactory, RestoreFromFactory, Steady, FactoryHolds, WriteOnceTrace, Restorable;
    StoreFacts(s);
    var stored := StoreToFactory(s).0;
    SnapshotFits(s.g, stored.flash.factory, s.cache);
    FitsThroughout(stored, ops);
    RunRefines(stored, ops);
    var r := Run(stored, ops);
    RestoreFacts(r, s.cache);
    WriteOnceJoin(s.g, s.trace, stored.trace, r.trace);
    WriteOnceJoin(s.g, s.trace, r.trace, RestoreFromFactory(r).0.trace);
  }

  // ---------------------------------------------------------------- power cuts in a run

  /** Plain writes and flushes. */
  predicate Plain(op: Op) {
    op.Sync? || (op.Put? && !op.cacheOnly && op.e.value != ERASED_VALUE)
  }

  predicate AllPlain(ops: seq<Op>) {
    forall i :: 0 <= i < |ops| ==> Plain(ops[i])
  }

  /** The writes a run accepted, in order. */
  function Accepted(s: Store, ops: seq<Op>): Block
    requires Sized(s)
  {
    if ops == [] then []
    else
      var before := ops[..|ops| - 1];
      Accepted(s, before) + AcceptedBy(Run(s, before), ops[|ops| - 1])
  }

  function AcceptedBy(s: Store, op: Op): Block
    requires Sized(s)
  {
    if op.Put? && op.e.address < s.g.addresses && Accepts(s) then [op.e] else []
  }

  /** Accepted writes that were followed by a flush. */
  function Flushed(s: Store, ops: seq<Op>): nat
    requires Sized(s)
  {
    if ops == [] then 0
    else if ops[|ops| - 1].Sync? then |Accepted(s, ops)|
    else Flushed(s, ops[..|ops| - 1])
  }

  /** After the writes `ws` from mirror `c`: all of them are in the log or staged, the staged ones last. */
  ghost predicate Tracks(s: Store, c: Mirror, ws: Block) {
    && Steady(s) && Mirrors(s, map[])
    && s.staged.entries <= |ws|
    && View(s, ActivePage(s)) == ReplayBlock(c, ws)
    && Durable(s, ActivePage(s)) == ReplayBlock(c, ws[..|ws| - s.staged.entries])
  }

  /** Cuts during a step see the durable part or all of what was accepted before it. */
  ghost predicate StepCuts(s: Store, t: Store) {
    s.g.Valid() && CutTrace(s.g, s.trace, t.trace, Durable(s, ActivePage(s)), View(s, ActivePage(s)))
  }

  lemma TracksView(s: Store, c: Mirror, ws: Block)
    requires Tracks(s, c, ws)
    ensures s.cache == View(s, ActivePage(s))
    ensures !s.staged.dirty ==> View(s, ActivePage(s)) == Durable(s, ActivePage(s))
    ensures !s.staged.dirty ==> s.staged.entries == 0
  {
    NoOverlay(View(s, ActivePage(s)));
    if !s.staged.dirty {
      ErasedBlockIsNeutral(s.g, Durable(s, ActivePage(s)));
    }
  }

  lemma PutRoomTracks(s: Store, e: Entry, c: Mirror, ws: Block)
    requires Tracks(s, c, ws) && UserEntry(s.g, e) && HasRoom(s)
    ensures Tracks(WriteInternal(s, e).0, c, ws + [e])
    ensures StepCuts(s, WriteInternal(s, e).0)
  {
    hide WriteInternal, Steady, Appending, View;
    TracksSteady(s, c, ws);
    WriteWithRoom(s, e, map[]);
    var t := WriteInternal(s, e).0;
    var page := ActivePage(s);
    var none: map<nat, Word> := map[];
    assert none - {e.address} == none;
    SteadyHolds(s);
    OneProgramCut(s, t, page, End(s, page), Durable(s, page), View(s, page));
    assert (ws + [e])[..|ws|] == ws;
    assert (ws + [e])[..|ws| + 1] == ws + [e];
    assert (ws + [e])[..|ws| - s.staged.entries] == ws[..|ws| - s.staged.entries];
    NothingStaged(t);
  }

  lemma NothingStaged(t: Store)
    requires Steady(t)
    ensures !t.staged.dirty ==> View(t, ActivePage(t)) == Durable(t, ActivePage(t)) && t.staged.entries == 0
  {
    if !t.staged.dirty {
      ErasedBlockIsNeutral(t.g, Durable(t, ActivePage(t)));
    }
  }

  lemma MovedTracks(s: Store, t: Store, c: Mirror, ws: Block)
    requires Tracks(s, c, ws)
    requires Steady(t) && Mirrors(t, map[]) && t.staged == ClearedBlock(t.g)
    requires t.cache == s.cache == Durable(t, ActivePage(t))
    ensures Tracks(t, c, ws)
  {
    TracksView(s, c, ws);
    assert ws[..|ws|] == ws;
    ErasedBlockIsNeutral(t.g, Durable(t, ActivePage(t)));
  }

  /** After a transfer everything accepted is durable. */
  lemma MoveTracks(s: Store, c: Mirror, ws: Block)
    requires Tracks(s, c, ws)
    ensures Tracks(PageTransfer(s).0, c, ws)
    ensures PageTransfer(s).0.staged.entries == 0
    ensures StepCuts(s, PageTransfer(s).0)
  {
    hide PageTransfer, TransferTrace, Window, CutTrace, Steady, Tracks, Mirrors, View, Durable;
    TracksSteady(s, c, ws);
    TransferSteady(s);
    TransferSteadyCut(s);
    MovedTracks(s, PageTransfer(s).0, c, ws);
  }

  lemma PutFullTracks(s: Store, e: Entry, c: Mirror, ws: Block)
    requires Tracks(s, c, ws) && UserEntry(s.g, e) && !HasRoom(s)
    ensures Tracks(Write(s, e).0, c, ws + (if Accepts(s) then [e] else []))
    ensures StepCuts(s, Write(s, e).0)
  {
    hide Write, WriteInternal, PageTransfer, CutTrace, Steady, Mirrors;
    TracksSteady(s, c, ws);
    WriteWhenFull(s, e);
    MoveTracks(s, c, ws);
    var t := PageTransfer(s).0;
    TransferSteady(s);
    TracksView(s, c, ws);
    TracksView(t, c, ws);
    FullIsNotDirty(s);
    if Accepts(s) {
      PutRoomTracks(t, e, c, ws);
      CutJoin(s.g, s.trace, t.trace, Write(s, e).0.trace, Durable(s, ActivePage(s)), View(s, ActivePage(s)));
    } else {
      RefusedKeeps(t, e);
      assert ws + [] == ws;
    }
  }

  lemma TracksSteady(s: Store, c: Mirror, ws: Block)
    requires Tracks(s, c, ws)
    ensures Steady(s) && Mirrors(s, map[]) && Sized(s)
  {
  }

  lemma FullIsNotDirty(s: Store)
    requires Steady(s) && !HasRoom(s)
    ensures !s.staged.dirty
  {
  }

  /** A refused attempt only moves the cursor. */
  lemma RefusedKeeps(s: Store, e: Entry)
    requires Steady(s) && UserEntry(s.g, e) && !HasRoom(s)
    requires s.next == Cursor(ActivePage(s), Position(End(s, ActivePage(s)), 0))
    ensures WriteInternal(s, e).0 == s
  {
    FindPages(s);
    AppendToFull(s, ActivePage(s), e);
    LocatedFacts(s, ActivePage(s));
  }

  lemma FlushTracks(s: Store, c: Mirror, ws: Block)
    requires Tracks(s, c, ws)
    ensures Tracks(FlushBlock(s), c, ws)
    ensures FlushBlock(s).staged.entries == 0
    ensures StepCuts(s, FlushBlock(s))
  {
    hide Steady, View, Durable, CutTrace, FlushBlock, Holds, OneProgram, Overlay, Sized;
    TracksSteady(s, c, ws);
    var page := ActivePage(s);
    FlushBlockSteady(s);
    SteadyHolds(s);
    OneProgramCut(s, FlushBlock(s), page, End(s, page), Durable(s, page), View(s, page));
    assert ws[..|ws|] == ws;
    FlushMirror(s);
  }

  lemma FlushMirror(s: Store)
    requires Sized(s)
    ensures FlushBlock(s).cache == s.cache && FlushBlock(s).g == s.g && s.g.Valid()
  {
  }

  lemma SyncTracks(s: Store, c: Mirror, ws: Block)
    requires Tracks(s, c, ws)
    ensures Tracks(Flush(s).0, c, ws)
    ensures Flush(s).0.staged.entries == 0
    ensures StepCuts(s, Flush(s).0)
  {
    hide PageTransfer, Tracks, StepCuts, Steady, Mirrors;
    TracksSteady(s, c, ws);
    if s.cacheDirty {
      MoveTracks(s, c, ws);
      TransferSteady(s);
    } else {
      FlushTracks(s, c, ws);
    }
  }

  lemma StepTracks(s: Store, op: Op, c: Mirror, ws: Block)
    requires Sized(s) && Tracks(s, c, ws) && Plain(op)
    ensures Tracks(Step(s, op), c, ws + AcceptedBy(s, op))
    ensures op.Sync? ==> Step(s, op).staged.entries == 0
    ensures StepCuts(s, Step(s, op))
  {
    hide Write, Flush, Steady, Mirrors, Tracks, WriteInternal;
    TracksSteady(s, c, ws);
    assert ws + [] == ws;
    match op {
      case Sync => SyncTracks(s, c, ws);
      case Put(e, _) =>
        if e.address >= s.g.addresses {
          WriteOutOfRange(s, e, false);
        } else if HasRoom(s) {
          RoomIsOk(s, e);
          PutRoomTracks(s, e, c, ws);
        } else {
          PutFullTracks(s, e, c, ws);
        }
    }
  }

  lemma {:induction false} RunTracks(s: Store, ops: seq<Op>)
    requires Steady(s) && Mirrors(s, map[]) && s.staged == ClearedBlock(s.g) && AllPlain(ops)
    ensures
      var t := Run(s, ops);
      && Tracks(t, s.cache, Accepted(s, ops))
      && Flushed(s, ops) + t.staged.entries <= |Accepted(s, ops)|
    decreases |ops|
  {
    hide Step, Steady, Mirrors, View, Durable;
    SteadySized(s);
    if ops == [] {
      StartTracks(s);
    } else {
      var before := ops[..|ops| - 1];
      var op := ops[|ops| - 1];
      RunTracks(s, before);
      assert Plain(op);
      StepTracks(Run(s, before), op, s.cache, Accepted(s, before));
      StagedGrowth(Run(s, before), op, s.cache, Accepted(s, before));
    }
  }

  lemma StartTracks(s: Store)
    requires Steady(s) && Mirrors(s, map[]) && s.staged == ClearedBlock(s.g)
    ensures Tracks(s, s.cache, [])
  {
    NoOverlay(View(s, ActivePage(s)));
    ErasedBlockIsNeutral(s.g, Durable(s, ActivePage(s)));
  }

  /** A step stages at most the write it accepts. */
  lemma StagedGrowth(s: Store, op: Op, c: Mirror, ws: Block)
    requires Sized(s) && Tracks(s, c, ws) && Plain(op)
    ensures Step(s, op).staged.entries <= s.staged.entries + |AcceptedBy(s, op)|
  {
    hide WriteInternal, PageTransfer, Flush, Write, Tracks, Accepts, HasRoom;
    if op.Sync? {
      SyncTracks(s, c, ws);
    } else if op.e.address < s.g.addresses {
      TracksSteady(s, c, ws);
      PutGrowth(s, op.e);
    } else {
      WriteOutOfRange(s, op.e, false);
    }
  }

  lemma PutGrowth(s: Store, e: Entry)
    requires Steady(s) && Mirrors(s, map[]) && UserEntry(s.g, e)
    ensures Sized(s)
    ensures Write(s, e).0.staged.entries <= s.staged.entries + if Accepts(s) then 1 else 0
  {
    hide WriteInternal, PageTransfer, Write, Mirrors, Steady, LiveCount, BlocksFor, TransferTrace, Window, View,
         OneProgram;
    SteadySized(s);
    if HasRoom(s) {
      RoomIsOk(s, e);
      WriteWithRoom(s, e, map[]);
      NotMoreStaged(WriteInternal(s, e).0);
    } else {
      WriteWhenFull(s, e);
      TransferSteady(s);
      var t := PageTransfer(s).0;
      if Accepts(s) {
        WriteWithRoom(t, e, map[]);
        NotMoreStaged(WriteInternal(t, e).0);
      } else {
        RefusedKeeps(t, e);
      }
    }
  }

  lemma NotMoreStaged(s: Store)
    requires Steady(s)
    ensures !s.staged.dirty ==> s.staged.entries == 0
  {
  }

  /** Flash contents when power goes at flash operation `k`. */
  function FlashAt(t: Store, k: nat): Flash {
    if k < |t.trace| then t.trace[k].before else t.flash
  }

  /** Start-up from contents `f` rebuilds the mirror left by the first `n` of the writes `ws`. */
  ghost predicate RebuildsPrefix(g: Geometry, f: Flash, c: Mirror, ws: Block, n: nat)
    requires g.Valid()
  {
    && n <= |ws| && SizedFlash(g, f) && Holds(g, f, ReplayBlock(c, ws[..n]))
    && Steady(Recover(g, f)) && Recover(g, f).cache == ReplayBlock(c, ws[..n])
  }

  lemma Rebuilds(g: Geometry, f: Flash, c: Mirror, ws: Block, n: nat)
    requires g.Valid() && n <= |ws| && Holds(g, f, ReplayBlock(c, ws[..n]))
    ensures RebuildsPrefix(g, f, c, ws, n)
  {
    hide Recover, Steady;
    HoldsSized(g, f, ReplayBlock(c, ws[..n]));
    RecoverHolds(g, f, ReplayBlock(c, ws[..n]));
  }

  /** A cut inside the call: the durable writes, or all before the call, can be rebuilt. */
  lemma CutDuring(t: Store, r: Store, c: Mirror, done: Block, more: Block, k: nat)
    requires Sized(t) && Tracks(t, c, done) && StepCuts(t, r) && |t.trace| <= k < |r.trace|
    ensures
      var f := r.trace[k].before;
      Unprotected(f) ||
      exists n :: |done| - t.staged.entries <= n && RebuildsPrefix(t.g, f, c, done + more, n)
  {
    hide Steady, Mirrors, View, Durable, Holds, RebuildsPrefix, Unprotected;
    var f := r.trace[k].before;
    var d := |done| - t.staged.entries;
    var ws := done + more;
    assert ws[..d] == done[..d] && ws[..|done|] == done;
    assert CutSafe(t.g, r.trace[k], ReplayBlock(c, done[..d]), ReplayBlock(c, done));
    if Holds(t.g, f, ReplayBlock(c, done[..d])) {
      Rebuilds(t.g, f, c, ws, d);
    } else if Holds(t.g, f, ReplayBlock(c, done)) {
      Rebuilds(t.g, f, c, ws, |done|);
    }
  }

  /** A cut after the call. */
  lemma CutAfter(r: Store, c: Mirror, ws: Block)
    requires Sized(r) && Tracks(r, c, ws)
    ensures RebuildsPrefix(r.g, r.flash, c, ws, |ws| - r.staged.entries)
  {
    hide Holds, RebuildsPrefix, Steady, Durable, View;
    SteadyHolds(r);
    Rebuilds(r.g, r.flash, c, ws, |ws| - r.staged.entries);
  }

  /**
   Crash recovery.  Power goes just before any flash operation `k` of the last call of a run of plain
   writes and flushes (or after all of them).  Unless that is inside the window of a transfer, start-up
   rebuilds exactly a prefix of the accepted writes; only writes staged before the call can be missing,
   and none that a completed flush followed.
   */
  lemma CrashRecovery(s: Store, ops: seq<Op>, op: Op, k: nat)
    requires Steady(s) && Mirrors(s, map[]) && s.staged == ClearedBlock(s.g)
    requires AllPlain(ops) && Plain(op)
    requires |Run(s, ops).trace| <= k
    ensures
      var t := Run(s, ops);
      var ws := Accepted(s, ops) + AcceptedBy(t, op);
      var f := FlashAt(Step(t, op), k);
      || Unprotected(f)
      || exists n ::
           && Flushed(s, ops) <= |Accepted(s, ops)| - t.staged.entries <= n
           && RebuildsPrefix(s.g, f, s.cache, ws, n)
  {
    hide Step, Steady, Mirrors, Tracks, StepCuts, Recover, RebuildsPrefix, Unprotected;
    SteadySized(s);
    RunTracks(s, ops);
    var t := Run(s, ops);
    var done := Accepted(s, ops);
    StepTracks(t, op, s.cache, done);
    StagedGrowth(t, op, s.cache, done);
    var r := Step(t, op);
    if k < |r.trace| {
      CutDuring(t, r, s.cache, done, AcceptedBy(t, op), k);
    } else {
      CutAfter(r, s.cache, done + AcceptedBy(t, op));
    }
  }

  /** And cutting the recoveries that follow, again and again, changes nothing of that. */
  lemma CrashRecoveryRepeated(s: Store, ops: seq<Op>, op: Op, k: nat, cuts: seq<nat>)
    requires Steady(s) && Mirrors(s, map[]) && s.staged == ClearedBlock(s.g)
    requires AllPlain(ops) && Plain(op)
    requires |Run(s, ops).trace| <= k
    requires var f := FlashAt(Step(Run(s, ops), op), k);
             SizedFlash(s.g, f) && !Unprotected(f) && OutsideWindow(s.g, f, cuts)
    ensures
      var t := Run(s, ops);
      var ws := Accepted(s, ops) + AcceptedBy(t, op);
      var f := Interrupted(s.g, FlashAt(Step(t, op), k), cuts);
      exists n :: |Accepted(s, ops)| - t.staged.entries <= n && RebuildsPrefix(s.g, f, s.cache, ws, n)
  {
    hide Step, Steady, Mirrors, Recover, Holds, Interrupted, OutsideWindow, Run, Accepted;
    SteadySized(s);
    CrashRecovery(s, ops, op, k);
    var t := Run(s, ops);
    var ws := Accepted(s, ops) + AcceptedBy(t, op);
    var f := FlashAt(Step(t, op), k);
    var n :| |Accepted(s, ops)| - t.staged.entries <= n && RebuildsPrefix(s.g, f, s.cache, ws, n);
    RepeatedCuts(s.g, f, ReplayBlock(s.cache, ws[..n]), cuts);
    Rebuilds(s.g, Interrupted(s.g, f, cuts), s.cache, ws, n);
  }
}
