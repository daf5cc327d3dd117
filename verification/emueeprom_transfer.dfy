/**
 Page transfer: the mirror is written out to the other runtime page, the pages swap roles,
 and the capacity formula guarantees that it always fits.
 */
module EmuTransfer {
  import opened Prelude
  import opened EmuLog
  import opened EmuModel
  import opened EmuAppend

  /** Live addresses among the first `k`. */
  function Live(c: Mirror, k: nat): (n: nat)
    requires k <= |c|
    ensures n <= k
  {
    if k == 0 then 0 else Live(c, k - 1) + (if c[k - 1] == ERASED_VALUE then 0 else 1)
  }

  function LiveCount(c: Mirror): nat {
    Live(c, |c|)
  }

  /** Blocks that `n` entries take up. */
  function BlocksFor(g: Geometry, n: nat): nat
    requires 1 <= g.entries
  {
    (n + g.entries - 1) / g.entries
  }

  /** The mirror restricted to the addresses below `k`. */
  function Below(c: Mirror, k: nat): Mirror {
    seq(|c|, i requires 0 <= i < |c| => if i < k then c[i] else ERASED_VALUE)
  }

  /** What stands on the pages when a transfer out of `source` starts. */
  datatype Scene = Scene(g: Geometry, source: PageId, image: PageImage, target: PageImage, factory: PageImage)

  function SceneOf(s: Store, source: PageId): Scene {
    Scene(s.g, source, s.flash.Get(source), s.flash.Get(Other(source)), s.flash.factory)
  }

  /** The source page is as it was, and the other one is untouched or marked as receiving. */
  ghost predicate SourceStands(sc: Scene, f: Flash) {
    && f.Get(sc.source) == sc.image
    && (f.Get(Other(sc.source)) == sc.target || LastStatus(f.Get(Other(sc.source))) == Receiving)
  }

  /** The window of a transfer: the source has been erased, the target is not valid yet. */
  ghost predicate Window(sc: Scene, f: Flash) {
    && LastStatus(f.Get(Other(sc.source))) == Receiving
    && (f.Get(sc.source) == ErasedPage(sc.g) || LastStatus(f.Get(sc.source)) == Formatted)
  }

  ghost predicate TransferEvent(sc: Scene, ev: Event) {
    && WriteOnce(sc.g, ev)
    && ev.op.page != Factory
    && ev.before.factory == sc.factory
    && (SourceStands(sc, ev.before) || Window(sc, ev.before))
  }

  ghost predicate TransferTrace(sc: Scene, before: seq<Event>, after: seq<Event>) {
    && |before| <= |after|
    && after[..|before|] == before
    && forall k :: |before| <= k < |after| ==> TransferEvent(sc, after[k])
  }

  lemma TraceStep(sc: Scene, before: seq<Event>, middle: seq<Event>, ev: Event)
    requires TransferTrace(sc, before, middle) && TransferEvent(sc, ev)
    ensures TransferTrace(sc, before, middle + [ev])
  {
    assert (middle + [ev])[..|before|] == middle[..|before|];
  }

  lemma TraceGrows(sc: Scene, before: seq<Event>, after: seq<Event>)
    requires TransferTrace(sc, before, after)
    ensures |before| <= |after|
  {
  }

  lemma TraceJoin(sc: Scene, before: seq<Event>, middle: seq<Event>, after: seq<Event>)
    requires TransferTrace(sc, before, middle) && TransferTrace(sc, middle, after)
    ensures TransferTrace(sc, before, after)
  {
    assert after[..|before|] == middle[..|before|];
    forall k | |before| <= k < |after| ensures TransferEvent(sc, after[k]) {
      if k < |middle| {
        assert after[k] == after[..|middle|][k] == middle[k];
      }
    }
  }

  lemma NoTransferYet(sc: Scene, trace: seq<Event>)
    ensures TransferTrace(sc, trace, trace)
  {
  }

  /** While entries are appended to a receiving page, at most one event is added, and it is harmless. */
  lemma AppendTrace(sc: Scene, s: Store, t: Store)
    requires Sized(s) && sc.g == s.g && sc.source != Factory
    requires SourceStands(sc, s.flash) && s.flash.factory == sc.factory
    requires End(s, Other(sc.source)) < s.g.blocks || t.trace == s.trace
    requires OneProgram(s, t, Other(sc.source), End(s, Other(sc.source)))
    ensures TransferTrace(sc, s.trace, t.trace)
  {
    if t.trace != s.trace {
      var page := Other(sc.source);
      var u := End(s, page);
      var data :| |data| == s.g.entries && !IsErased(data) &&
        t.trace == s.trace + [Event(s.flash, Program(page, u, data))];
      assert IsErased(s.flash.Get(page)[u]);
      TraceStep(sc, s.trace, s.trace, Event(s.flash, Program(page, u, data)));
    }
  }

  // ---------------------------------------------------------------- arithmetic of capacity

  /** The number of blocks that `n` entries take is the unique `m` with (m - 1) * E < n <= m * E. */
  lemma BlocksForUnique(g: Geometry, n: nat, m: nat)
    requires 1 <= g.entries && n <= m * g.entries < n + g.entries
    ensures BlocksFor(g, n) == m
  {
    var q := (n + g.entries - 1) / g.entries;
    var r := (n + g.entries - 1) % g.entries;
    assert n + g.entries - 1 == q * g.entries + r;
    assert (q + 1) * g.entries == q * g.entries + g.entries;
    assert (m + 1) * g.entries == m * g.entries + g.entries;
    ProductOrder(q, m + 1, g.entries);
    ProductOrder(m, q + 1, g.entries);
  }

  /** A log ends at block `end` with `staged` entries in RAM; it started at `base` and took in `n` entries. */
  lemma FlushedArithmetic(E: nat, B: nat, base: nat, n: nat, end: nat, staged: nat, dirty: bool)
    requires 1 <= E && 1 <= B
    requires end * E + staged == base * E + n <= (B - 1) * E
    requires if dirty then 0 < staged < E else staged == 0
    ensures
      var u := end + (if dirty then 1 else 0);
      base <= u < B && n <= (u - base) * E < n + E
  {
    var u := end + (if dirty then 1 else 0);
    assert u * E == end * E + (if dirty then E else 0);
    if u < base {
      ProductMonotone(u, base, E);
    }
    assert u * E == base * E + (u - base) * E;
    assert B * E == (B - 1) * E + E;
    ProductOrder(end, B, E);
    if dirty {
      ProductOrder(end, B - 1, E);
    }
  }

  // ---------------------------------------------------------------- copying the mirror out

  /** The state of a transfer when the addresses below `x` have been copied. */
  ghost predicate Copying(s: Store, sc: Scene, x: nat) {
    var page := Other(sc.source);
    && Sized(s) && sc.source != Factory && sc.g == s.g
    && Appending(s, page)
    && s.status.Get(page) == Receiving && s.status.Get(sc.source) == Valid
    && LastStatus(s.flash.Get(page)) == Receiving
    && s.flash.Get(sc.source) == sc.image && s.flash.factory == sc.factory
    && x <= |s.cache|
    && View(s, page) == Below(s.cache, x)
    && Slots(s, page) + LiveCount(s.cache) - Live(s.cache, x) <= (s.g.blocks - 1) * s.g.entries
  }

  lemma {:induction false} LiveMonotone(c: Mirror, x: nat, y: nat)
    requires x <= y <= |c|
    ensures Live(c, x) <= Live(c, y)
    decreases y
  {
    if x < y {
      LiveMonotone(c, x, y - 1);
    }
  }

  /** The capacity set aside leaves a slot for every live address still to be copied. */
  lemma RoomForNext(s: Store, sc: Scene, x: nat)
    requires Copying(s, sc, x) && x < |s.cache| && s.cache[x] != ERASED_VALUE
    ensures End(s, Other(sc.source)) < s.g.blocks
    ensures Live(s.cache, x + 1) == Live(s.cache, x) + 1
  {
    hide Appending, View, LastStatus, FirstErased, Below;
    LiveMonotone(s.cache, x + 1, |s.cache|);
    ProductOrder(End(s, Other(sc.source)), s.g.blocks - 1, s.g.entries);
  }

  lemma BelowNext(c: Mirror, x: nat)
    requires x < |c| <= 0xFFFF
    ensures ReplayEntry(Below(c, x), Entry(x, c[x])) == Below(c, x + 1)
  {
  }

  lemma CopyOne(s: Store, sc: Scene, x: nat)
    requires Copying(s, sc, x) && x < |s.cache| && s.cache[x] != ERASED_VALUE
    ensures
      var (t, status) := WriteInternal(s, Entry(x, s.cache[x]));
      && status == WriteOk
      && Copying(t, sc, x + 1)
      && SameMirror(t, s)
      && Slots(t, Other(sc.source)) == Slots(s, Other(sc.source)) + 1
      && TransferTrace(sc, s.trace, t.trace)
  {
    hide WriteInternal, Appending, View, LastStatus, OneProgram, TransferTrace, FirstErased, Below, Slots, Live,
         ReplayEntry;
    var page := Other(sc.source);
    var e := Entry(x, s.cache[x]);
    RoomForNext(s, sc, x);
    AppendEntry(s, page, e);
    var t := WriteInternal(s, e).0;
    AppendingSized(t, page);
    assert t.cache == s.cache;
    BelowNext(s.cache, x);
    AppendTrace(sc, s, t);
  }

  lemma {:induction false} DumpFacts(s: Store, sc: Scene, x: nat)
    requires Copying(s, sc, x)
    ensures
      var (t, status) := Dump(s, x);
      && status == WriteOk
      && Copying(t, sc, |s.cache|)
      && SameMirror(t, s)
      && Slots(t, Other(sc.source)) == Slots(s, Other(sc.source)) + LiveCount(s.cache) - Live(s.cache, x)
      && TransferTrace(sc, s.trace, t.trace)
    decreases |s.cache| - x
  {
    hide WriteInternal, Appending, View, Slots, LastStatus, TransferTrace, FirstErased;
    if x == |s.cache| {
      NoTransferYet(sc, s.trace);
    } else {
      if s.cache[x] == ERASED_VALUE {
        assert Below(s.cache, x) == Below(s.cache, x + 1);
        DumpFacts(s, sc, x + 1);
      } else {
        CopyOne(s, sc, x);
        var t := WriteInternal(s, Entry(x, s.cache[x])).0;
        DumpFacts(t, sc, x + 1);
        TraceJoin(sc, s.trace, t.trace, Dump(t, x + 1).0.trace);
      }
    }
  }

  /** A page a transfer can write to: erased, or holding just its Formatted record. */
  ghost predicate Vacant(g: Geometry, p: PageImage)
    requires g.Valid()
  {
    p == ErasedPage(g) || (1 <= g.blocks && p == FormattedPage(g))
  }

  lemma VacantFacts(s: Store, page: PageId)
    requires Sized(s) && Vacant(s.g, s.flash.Get(page))
    ensures 4 <= s.g.blocks
    ensures End(s, page) <= 1
    ensures CleanLog(s.g, s.flash.Get(page), End(s, page))
    ensures Durable(s, page) == EmptyMirror(s.g)
    ensures s.flash.Get(page) == ErasedPage(s.g) ==> End(s, page) == 0 && LastStatus(s.flash.Get(page)) == Erased
    ensures s.flash.Get(page) == FormattedPage(s.g) ==> End(s, page) == 1 && LastStatus(s.flash.Get(page)) == Formatted
  {
    ProductOrder(3, s.g.blocks, s.g.entries);
    ErasedPageIsLog(s.g);
    FormattedPageFacts(s.g);
    StatusBlockFacts(s.g, Formatted, EmptyMirror(s.g));
    if s.flash.Get(page) == FormattedPage(s.g) {
      var p := s.flash.Get(page);
      assert p[..1] == [StatusBlock(s.g, Formatted)];
      assert Replay(EmptyMirror(s.g), p[..1][..0]) == EmptyMirror(s.g);
      assert p[0] == StatusBlock(s.g, Formatted);
      assert CleanBlock(s.g, p[0]);
      assert ErasedPage(s.g)[0] != p[0];
    } else {
      assert s.flash.Get(page)[..0] == [];
    }
  }

  /** What a transfer out of `source` requires. */
  ghost predicate CanTransfer(s: Store, source: PageId) {
    && Sized(s) && source != Factory
    && s.staged == ClearedBlock(s.g)
    && s.status.Get(source) == Valid && s.status.Get(Other(source)) != Valid
    && Vacant(s.g, s.flash.Get(Other(source)))
  }

  /** What `address_count_for` sets aside is enough for the records of a transfer. */
  lemma CopyRoom(g: Geometry, base: nat)
    requires g.Valid() && base <= 2 && 1 <= g.blocks
    ensures base * g.entries + g.addresses <= (g.blocks - 1) * g.entries
  {
    ProductMonotone(base, 2, g.entries);
    assert (g.blocks - 1) * g.entries == g.blocks * g.entries - g.entries;
  }

  /** The store once the Receiving record has opened the copy. */
  function Opened(s: Store, source: PageId): Store
    requires Sized(s) && End(s, Other(source)) < s.g.blocks
  {
    Stamped(s, Other(source), Receiving).(next := Cursor(Other(source), ORIGIN))
  }

  lemma OpenedTrace(s: Store, source: PageId)
    requires CanTransfer(s, source)
    ensures End(s, Other(source)) < s.g.blocks
    ensures WritePageStatus(s, Other(source), Receiving).Some?
    ensures Opened(s, source) ==
            WritePageStatus(s, Other(source), Receiving).value.(next := Cursor(Other(source), ORIGIN))
    ensures TransferTrace(SceneOf(s, source), s.trace, Opened(s, source).trace)
  {
    hide WritePageStatus, LastStatus, CleanLog, Durable, FirstErased, FormattedPage, ErasedPage, TransferTrace;
    var page := Other(source);
    VacantFacts(s, page);
    StampedFacts(s, page, Receiving);
    NoTransferYet(SceneOf(s, source), s.trace);
    TraceStep(SceneOf(s, source), s.trace, s.trace,
              Event(s.flash, Program(page, End(s, page), StatusBlock(s.g, Receiving))));
  }

  lemma OpenedAppends(s: Store, source: PageId)
    requires CanTransfer(s, source)
    ensures End(s, Other(source)) < s.g.blocks
    ensures
      var t := Opened(s, source);
      && Sized(t) && t.g == s.g && s.g.Valid() && |t.cache| == s.g.addresses && 1 <= s.g.blocks
      && Appending(t, Other(source)) && View(t, Other(source)) == EmptyMirror(s.g)
      && t.staged.entries == 0 && End(t, Other(source)) == End(s, Other(source)) + 1
  {
    hide WritePageStatus, ErasedPage, FormattedPage, CleanLog, Durable, LastStatus, FirstErased;
    var page := Other(source);
    VacantFacts(s, page);
    StampedFacts(s, page, Receiving);
    ErasedBlockIsNeutral(s.g, Durable(Opened(s, source), page));
    SameDurable(Stamped(s, page, Receiving), Opened(s, source), page);
  }

  /** The Receiving record opens the copy. */
  lemma CopyStarts(s: Store, source: PageId)
    requires CanTransfer(s, source)
    ensures End(s, Other(source)) < s.g.blocks
    ensures
      var t := Opened(s, source);
      && Copying(t, SceneOf(s, source), 0)
      && SameMirror(t, s.(status := s.status.With(Other(source), Receiving)))
      && Slots(t, Other(source)) == (End(s, Other(source)) + 1) * s.g.entries
  {
    hide WritePageStatus, ErasedPage, FormattedPage, CleanLog, Durable, LastStatus, FirstErased, Sized;
    var page := Other(source);
    VacantFacts(s, page);
    StampedFacts(s, page, Receiving);
    var t := Opened(s, source);
    OpenedAppends(s, source);
    assert Below(s.cache, 0) == EmptyMirror(s.g);
    CopyRoom(s.g, End(s, page) + 1);
  }

  /** All live addresses have been appended to the target, some possibly still staged. */
  lemma CopyAll(s: Store, source: PageId)
    requires CanTransfer(s, source)
    ensures End(s, Other(source)) < s.g.blocks
    ensures
      var (t, status) := Dump(Opened(s, source), 0);
      && status == WriteOk
      && Copying(t, SceneOf(s, source), |s.cache|)
      && SameMirror(t, s.(status := s.status.With(Other(source), Receiving)))
      && Slots(t, Other(source)) == (End(s, Other(source)) + 1) * s.g.entries + LiveCount(s.cache)
      && TransferTrace(SceneOf(s, source), s.trace, t.trace)
  {
    hide Copying, TransferTrace, Stamped, Slots;
    OpenedTrace(s, source);
    CopyStarts(s, source);
    var t0 := Opened(s, source);
    DumpFacts(t0, SceneOf(s, source), 0);
    TraceJoin(SceneOf(s, source), s.trace, t0.trace, Dump(t0, 0).0.trace);
  }

  /** Flushing the last staged block of the copy. */
  lemma CopyFlush(s: Store, source: PageId, t: Store)
    requires CanTransfer(s, source)
    requires Copying(t, SceneOf(s, source), |s.cache|) && t.cache == s.cache
    requires Slots(t, Other(source)) == (End(s, Other(source)) + 1) * s.g.entries + LiveCount(s.cache)
    ensures
      var page := Other(source);
      var r := FlushBlock(t);
      && Copying(r, SceneOf(s, source), |s.cache|) && !r.staged.dirty
      && Durable(r, page) == s.cache
      && End(r, page) == End(s, page) + 1 + BlocksFor(s.g, LiveCount(s.cache)) < s.g.blocks
      && TransferTrace(SceneOf(s, source), t.trace, r.trace)
  {
    hide Appending, View, Durable, LastStatus, FirstErased, OneProgram, TransferTrace, FlushBlock, Below, Live,
         CanTransfer,
         BlocksFor, Slots;
    var page := Other(source);
    var r := FlushBlock(t);
    FlushAppending(t, page);
    FlushedEnd(s, source, t);
    AppendTrace(SceneOf(s, source), t, r);
    WholeBelow(s.cache);
    FlushedSlots(t, r, page);
  }

  lemma WholeBelow(c: Mirror)
    ensures Below(c, |c|) == c
  {
  }

  lemma FlushedSlots(t: Store, r: Store, page: PageId)
    requires Appending(r, page) && !r.staged.dirty && r.g == t.g && End(r, page) < r.g.blocks
    ensures Slots(r, page) <= (r.g.blocks - 1) * r.g.entries
    ensures Sized(r)
  {
    hide CleanLog, FirstErased;
    ProductMonotone(End(r, page), r.g.blocks - 1, r.g.entries);
  }

  /** Once the copy is flushed, the target page holds exactly the mirror, in the least number of blocks. */
  lemma CopyFacts(s: Store, source: PageId)
    requires CanTransfer(s, source)
    ensures
      var page := Other(source);
      var (t, status) := CopyToOther(s, source);
      && status == WriteOk
      && Copying(t, SceneOf(s, source), |s.cache|) && !t.staged.dirty
      && SameMirror(t, s.(status := s.status.With(page, Receiving)))
      && Durable(t, page) == s.cache
      && End(t, page) == End(s, page) + 1 + BlocksFor(s.g, LiveCount(s.cache)) < s.g.blocks
      && TransferTrace(SceneOf(s, source), s.trace, t.trace)
  {
    hide Copying, TransferTrace, Stamped, Slots, Durable;
    OpenedTrace(s, source);
    CopyAll(s, source);
    var t1 := Dump(Opened(s, source), 0).0;
    CopyFlush(s, source, t1);
    TraceJoin(SceneOf(s, source), s.trace, t1.trace, FlushBlock(t1).trace);
  }

  /** Where the log of the target ends after the copy has been flushed. */
  lemma FlushedEnd(s: Store, source: PageId, t: Store)
    requires CanTransfer(s, source)
    requires Copying(t, SceneOf(s, source), |s.cache|) && |t.cache| == |s.cache|
    requires Slots(t, Other(source)) == (End(s, Other(source)) + 1) * s.g.entries + LiveCount(s.cache)
    ensures
      var page := Other(source);
      var u := End(t, page) + (if t.staged.dirty then 1 else 0);
      u == End(s, page) + 1 + BlocksFor(s.g, LiveCount(s.cache)) < s.g.blocks
    ensures End(t, Other(source)) < s.g.blocks
  {
    hide Vacant, View, Durable, LastStatus, FirstErased, Below, Live, CleanLog, BlocksFor;
    var page := Other(source);
    var u := End(t, page) + (if t.staged.dirty then 1 else 0);
    CopyFits(t, SceneOf(s, source));
    FlushedArithmetic(s.g.entries, s.g.blocks, End(s, page) + 1, LiveCount(s.cache),
                      End(t, page), t.staged.entries, t.staged.dirty);
    BlocksForUnique(s.g, LiveCount(s.cache), u - (End(s, page) + 1));
  }

  /** The finished copy has taken up no more than what was set aside. */
  lemma CopyFits(t: Store, sc: Scene)
    requires Copying(t, sc, |t.cache|)
    ensures 1 <= t.g.entries && 1 <= t.g.blocks
    ensures Slots(t, Other(sc.source)) <= (t.g.blocks - 1) * t.g.entries
    ensures if t.staged.dirty then 0 < t.staged.entries < t.g.entries else t.staged.entries == 0
  {
    hide View, Durable, LastStatus, FirstErased, Below, CleanLog;
    ProductOrder(0, t.g.blocks, t.g.entries);
  }

  // ---------------------------------------------------------------- swapping the roles

  /** The old page has been erased and marked Formatted. */
  function Retired(s: Store, source: PageId): Store
    requires Sized(s)
  {
    var e := ErasePage(s, source);
    if Sized(e) && End(e, source) < e.g.blocks then Stamped(e, source, Formatted) else e
  }

  lemma RetiredFacts(s: Store, sc: Scene)
    requires Copying(s, sc, |s.cache|) && !s.staged.dirty
    requires End(s, Other(sc.source)) < s.g.blocks
    ensures
      var t := Retired(s, sc.source);
      && Sized(t) && Sized(ErasePage(s, sc.source))
      && WritePageStatus(ErasePage(s, sc.source), sc.source, Formatted) == Some(t)
      && t.flash == s.flash.With(sc.source, FormattedPage(s.g))
      && SameMirror(t, s.(status := s.status.With(sc.source, Formatted)))
      && t.staged == s.staged && t.next == s.next
      && TransferTrace(sc, s.trace, t.trace)
      && Window(sc, t.flash)
  {
    hide WritePageStatus, LastStatus, TransferTrace, Durable, FormattedPage, View, CleanLog;
    ReadyToRetire(s, sc);
    var e := ErasePage(s, sc.source);
    ErasedPageIsLog(s.g);
    RetiredPage(s.g);
    EmptyPageIsClean(e, sc.source);
    StampedFacts(e, sc.source, Formatted);
    RetiredTrace(s, sc);
  }

  /** What the second half of a transfer starts from. */
  lemma ReadyToRetire(s: Store, sc: Scene)
    requires Copying(s, sc, |s.cache|) && !s.staged.dirty
    ensures Sized(s) && sc.source != Factory && sc.g == s.g && 1 <= s.g.blocks
    ensures s.staged == ClearedBlock(s.g) && s.next.page == Other(sc.source)
    ensures s.flash.factory == sc.factory && s.flash.Get(sc.source) == sc.image
    ensures LastStatus(s.flash.Get(Other(sc.source))) == Receiving
  {
    hide View, LastStatus, CleanLog, Below;
    ProductOrder(0, s.g.blocks, s.g.entries);
  }

  lemma RetiredPage(g: Geometry)
    requires 1 <= g.entries && 1 <= g.blocks
    ensures ErasedPage(g)[0 := StatusBlock(g, Formatted)] == FormattedPage(g)
    ensures LastStatus(FormattedPage(g)) == Formatted
  {
    FormattedPageFacts(g);
  }

  lemma EmptyPageIsClean(s: Store, page: PageId)
    requires s.flash.Get(page) == ErasedPage(s.g)
    ensures CleanLog(s.g, s.flash.Get(page), End(s, page)) && End(s, page) == 0
  {
    ErasedPageIsLog(s.g);
  }

  lemma RetiredTrace(s: Store, sc: Scene)
    requires Sized(s) && sc.source != Factory && sc.g == s.g && 1 <= s.g.blocks
    requires s.flash.factory == sc.factory && s.flash.Get(sc.source) == sc.image
    requires LastStatus(s.flash.Get(Other(sc.source))) == Receiving
    ensures
      var e := ErasePage(s, sc.source);
      TransferTrace(sc, s.trace, e.trace + [Event(e.flash, Program(sc.source, 0, StatusBlock(s.g, Formatted)))])
  {
    hide LastStatus, TransferTrace;
    var e := ErasePage(s, sc.source);
    StatusBlockFacts(s.g, Formatted, []);
    ErasedBlockIsNeutral(s.g, []);
    NoTransferYet(sc, s.trace);
    TraceStep(sc, s.trace, s.trace, Event(s.flash, Erase(sc.source)));
    TraceStep(sc, s.trace, e.trace, Event(e.flash, Program(sc.source, 0, StatusBlock(s.g, Formatted))));
  }

  /** What the store is when the transfer is over. */
  ghost predicate Swapped(s: Store, t: Store, source: PageId) {
    var page := Other(source);
    && Sized(t) && t.g == s.g
    && t.flash == s.flash.With(source, FormattedPage(s.g)).With(page, t.flash.Get(page))
    && CleanLog(t.g, t.flash.Get(page), End(t, page))
    && LastStatus(t.flash.Get(page)) == Valid
    && Durable(t, page) == s.cache == t.cache
    && !t.cacheDirty && t.staged == ClearedBlock(s.g)
    && t.next == Cursor(page, Position(End(t, page), 0))
    && t.status == s.status.With(source, Formatted).With(page, Valid)
  }

  lemma SwapFacts(s: Store, sc: Scene)
    requires Copying(s, sc, |s.cache|) && !s.staged.dirty
    requires Durable(s, Other(sc.source)) == s.cache
    requires End(s, Other(sc.source)) < s.g.blocks
    ensures
      var page := Other(sc.source);
      var (t, status) := SwapPages(s, sc.source);
      && status == WriteOk
      && Swapped(s, t, sc.source)
      && End(t, page) == End(s, page) + 1
      && TransferTrace(sc, s.trace, t.trace)
      && |s.trace| < |t.trace| && Window(sc, t.trace[|t.trace| - 1].before)
  {
    RetiredFacts(s, sc);
    PromotedFacts(s, sc, Retired(s, sc.source));
  }

  lemma PromotedFacts(s: Store, sc: Scene, r: Store)
    requires Copying(s, sc, |s.cache|) && !s.staged.dirty
    requires Durable(s, Other(sc.source)) == s.cache
    requires End(s, Other(sc.source)) < s.g.blocks
    requires Sized(r) && r.g == s.g && Sized(ErasePage(s, sc.source))
    requires WritePageStatus(ErasePage(s, sc.source), sc.source, Formatted) == Some(r)
    requires r.flash == s.flash.With(sc.source, FormattedPage(s.g))
    requires SameMirror(r, s.(status := s.status.With(sc.source, Formatted)))
    requires r.staged == s.staged && r.next == s.next
    requires TransferTrace(sc, s.trace, r.trace)
    requires Window(sc, r.flash)
    ensures
      var page := Other(sc.source);
      var (t, status) := SwapPages(s, sc.source);
      && status == WriteOk
      && Swapped(s, t, sc.source)
      && End(t, page) == End(s, page) + 1
      && TransferTrace(sc, s.trace, t.trace)
      && |s.trace| < |t.trace| && Window(sc, t.trace[|t.trace| - 1].before)
  {
    hide WritePageStatus, CleanLog, Window, LastStatus, Durable, FormattedPage, Cache, TransferTrace, FirstErased,
         Copying, SwapPages, Swapped, Stamped, Sized;
    var page := Other(sc.source);
    TargetIsClean(s, sc, r);
    StampedFacts(r, page, Valid);
    SwapUnfolded(s, sc.source, r, Stamped(r, page, Valid));
    SwapEnds(s, sc.source, r);
    PromotedTrace(sc, s.trace, r, page);
  }

  lemma SwapUnfolded(s: Store, source: PageId, r: Store, v: Store)
    requires Sized(s) && Sized(ErasePage(s, source)) && Sized(r) && Sized(v)
    requires WritePageStatus(ErasePage(s, source), source, Formatted) == Some(r)
    requires WritePageStatus(r, Other(source), Valid) == Some(v)
    ensures SwapPages(s, source) == (Cache(v).0, if Cache(v).1 then WriteOk else WriteError)
  {
    hide WritePageStatus, Cache, ErasePage;
  }

  /** The Valid record and the reload of the mirror end the transfer. */
  lemma SwapEnds(s: Store, source: PageId, r: Store)
    requires Sized(r) && r.g == s.g && source != Factory && r.staged == ClearedBlock(s.g)
    requires r.flash == s.flash.With(source, FormattedPage(s.g))
    requires SameMirror(r, s.(status := s.status.With(source, Formatted)))
    requires CleanLog(r.g, r.flash.Get(Other(source)), End(r, Other(source))) && End(r, Other(source)) < s.g.blocks
    requires Durable(r, Other(source)) == s.cache && r.next.page == Other(source)
    ensures
      var page := Other(source);
      var v := Stamped(r, page, Valid);
      && Sized(v)
      && var (t, ok) := Cache(v);
         ok && Swapped(s, t, source) && End(t, page) == End(r, page) + 1 && t.trace == v.trace
  {
    hide WritePageStatus, CleanLog, LastStatus, FormattedPage, Cache, FirstErased, Replay;
    var page := Other(source);
    StampedFacts(r, page, Valid);
    var v := Stamped(r, page, Valid);
    CacheFacts(v, page);
    SameDurable(v, Cache(v).0, page);
  }

  /** Retiring the source leaves the target as it was. */
  lemma TargetIsClean(s: Store, sc: Scene, r: Store)
    requires Copying(s, sc, |s.cache|) && !s.staged.dirty
    requires r.g == s.g && r.flash == s.flash.With(sc.source, FormattedPage(s.g)) && r.staged == s.staged
    ensures
      var page := Other(sc.source);
      && sc.source != Factory && sc.g == s.g && r.staged == ClearedBlock(s.g)
      && r.flash.Get(page) == s.flash.Get(page) && r.flash.factory == sc.factory
      && End(r, page) == End(s, page) && Durable(r, page) == Durable(s, page)
      && CleanLog(r.g, r.flash.Get(page), End(r, page)) && 1 <= End(r, page)
      && r.flash.Get(sc.source) == FormattedPage(s.g)
      && s.status.Get(page) == Receiving && s.status.Get(sc.source) == Valid
      && s.next.page == page && Sized(s)
  {
    hide LastStatus, FormattedPage, View, Below, FirstErased;
  }

  lemma PromotedTrace(sc: Scene, before: seq<Event>, r: Store, page: PageId)
    requires Sized(r) && TransferTrace(sc, before, r.trace) && Window(sc, r.flash) && page == Other(sc.source)
    requires sc.g == r.g && r.flash.factory == sc.factory && End(r, page) < r.g.blocks && page != Factory
    ensures
      TransferTrace(sc, before,
                    r.trace + [Event(r.flash, Program(page, End(r, page), StatusBlock(r.g, Valid)))])
    ensures |before| <= |r.trace|
  {
    hide Window, TransferTrace, LastStatus;
    StatusBlockFacts(r.g, Valid, []);
    TraceGrows(sc, before, r.trace);
    TraceStep(sc, before, r.trace, Event(r.flash, Program(page, End(r, page), StatusBlock(r.g, Valid))));
  }
}
