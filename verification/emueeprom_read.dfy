/**
 Reading: the backward scan of the log and the forward replay of the log agree, so a read
 answers from the logical map; and status look-ups find the last record wherever they start.
 */
module EmuRead {
  import opened Prelude
  import opened EmuLog
  import opened EmuModel
  import opened EmuAppend
  import opened EmuTransfer
  import opened EmuSteady

  /** Replay of the log up to and including the entry at a position. */
  function ReplayUpTo(g: Geometry, p: PageImage, at: Position): Mirror
    requires at.block < |p| && at.entry < |p[at.block]|
  {
    ReplayBlock(Replay(EmptyMirror(g), p[..at.block]), p[at.block][..at.entry + 1])
  }

  /** What a mirror answers for an address. */
  function Lookup(c: Mirror, address: nat): Option<Word>
    requires address < |c|
  {
    if c[address] == ERASED_VALUE then None else Some(c[address])
  }

  ghost predicate CleanUpTo(g: Geometry, p: PageImage) {
    forall b :: 0 <= b < |p| ==> CleanBlock(g, p[b])
  }

  /** The newest entry found scanning backwards is the value a forward replay leaves. */
  lemma {:induction false} ScanAgreesWithReplay(g: Geometry, p: PageImage, at: Position, address: nat)
    requires SizedPage(g, p) && 1 <= g.entries && g.addresses <= 0xFFFF && CleanUpTo(g, p)
    requires at.block < |p| && at.entry < g.entries && address < g.addresses
    ensures FindBackward(p, at, address) == Lookup(ReplayUpTo(g, p, at), address)
    decreases at.block, at.entry
  {
    var blk := p[at.block];
    var e := blk[at.entry];
    assert Clean(g, e) by { assert CleanBlock(g, p[at.block]); }
    assert blk[..at.entry + 1][..at.entry] == blk[..at.entry];
    assert blk[..at.entry + 1][at.entry] == e;
    var before := ReplayBlock(Replay(EmptyMirror(g), p[..at.block]), blk[..at.entry]);
    assert ReplayUpTo(g, p, at) == ReplayEntry(before, e);
    if e.address != address {
      if at.entry > 0 {
        ScanAgreesWithReplay(g, p, Position(at.block, at.entry - 1), address);
      } else if at.block > 0 {
        var last := Position(at.block - 1, g.entries - 1);
        ScanAgreesWithReplay(g, p, last, address);
        assert p[at.block - 1][..g.entries] == p[at.block - 1];
        assert p[..at.block][..at.block - 1] == p[..at.block - 1];
        assert blk[..0] == [];
        assert before == ReplayUpTo(g, p, last);
      } else {
        assert blk[..0] == [] && p[..0] == [];
      }
    }
  }

  lemma {:induction false} ReplayErasedSuffix(c: Mirror, p: PageImage, u: nat)
    requires u <= |p| && forall b :: u <= b < |p| ==> IsErased(p[b])
    ensures Replay(c, p) == Replay(c, p[..u])
    decreases |p|
  {
    if u == |p| {
      assert p[..u] == p;
    } else {
      var rest := p[..|p| - 1];
      ReplayErasedSuffix(c, rest, u);
      assert rest[..u] == p[..u];
      ErasedTail(Replay(c, rest), p[|p| - 1], 0);
    }
  }

  /** Where `read` starts its scan in a steady state. */
  function ScanStart(s: Store): Position {
    if s.next.at != ORIGIN then s.next.at else Position(s.g.blocks, 0)
  }

  /** From the end of the page. */
  lemma SeenFromEnd(g: Geometry, p: PageImage, u: nat)
    requires IsLog(g, p, u) && 1 <= g.entries && 1 <= g.blocks
    ensures ReplayUpTo(g, p, Position(g.blocks - 1, g.entries - 1)) == Replay(EmptyMirror(g), p[..u])
  {
    hide IsErased;
    var last := g.blocks - 1;
    ReplayErasedSuffix(EmptyMirror(g), p, u);
    assert p[last][..g.entries] == p[last];
    assert p[..last] + [p[last]] == p;
    assert Replay(EmptyMirror(g), p) == ReplayBlock(Replay(EmptyMirror(g), p[..last]), p[last]);
  }

  /** From an erased slot right after the log. */
  lemma SeenFromErased(g: Geometry, p: PageImage, u: nat, n: nat)
    requires IsLog(g, p, u) && u < g.blocks && n < g.entries
    ensures ReplayUpTo(g, p, Position(u, n)) == Replay(EmptyMirror(g), p[..u])
  {
    hide Replay;
    var part := p[u][..n + 1];
    assert ErasedFrom(part, 0) by { assert IsErased(p[u]); }
    ErasedTail(Replay(EmptyMirror(g), p[..u]), part, 0);
    assert part[..0] == [];
  }

  /** From the last slot of the log. */
  lemma SeenFromLast(g: Geometry, p: PageImage, u: nat)
    requires IsLog(g, p, u) && 1 <= u && 1 <= g.entries
    ensures ReplayUpTo(g, p, Position(u - 1, g.entries - 1)) == Replay(EmptyMirror(g), p[..u])
  {
    hide IsErased;
    assert p[u - 1][..g.entries] == p[u - 1];
    assert p[..u][..u - 1] == p[..u - 1];
  }

  /** Scanning back from there sees the whole durable log. */
  lemma ScanSeesAll(s: Store)
    requires Steady(s)
    ensures ScanStart(s) != ORIGIN
    ensures
      var page := ActivePage(s);
      var at := Previous(s.g, ScanStart(s));
      && at.block < s.g.blocks && at.entry < s.g.entries
      && ReplayUpTo(s.g, s.flash.Get(page), at) == Durable(s, page)
  {
    hide ReplayUpTo, Replay, CleanBlock, LastStatus, FirstErased, FormattedPage, IsErased, ErasedBlock;
    var page := ActivePage(s);
    var p := s.flash.Get(page);
    var u := End(s, page);
    if s.next.at == ORIGIN {
      SeenFromEnd(s.g, p, u);
    } else if s.staged.dirty {
      SeenFromErased(s.g, p, u, s.staged.entries - 1);
    } else {
      SeenFromLast(s.g, p, u);
    }
  }

  /** Staged entries and cache-only writes never make an address absent. */
  lemma {:induction false} LiveStaysLive(g: Geometry, c: Mirror, es: Block, a: nat)
    requires CleanBlock(g, es) && a < |c| && c[a] != ERASED_VALUE
    ensures ReplayBlock(c, es)[a] != ERASED_VALUE
  {
    if es != [] {
      LiveStaysLive(g, c, es[..|es| - 1], a);
      assert Clean(g, es[|es| - 1]);
    }
  }

  /** The scan that backs a read finds exactly what is durable on the active page. */
  lemma ScanFindsDurable(s: Store, address: nat)
    requires Steady(s) && address < s.g.addresses
    ensures
      FindBackward(s.flash.Get(ActivePage(s)), Previous(s.g, ScanStart(s)), address) ==
      Lookup(Durable(s, ActivePage(s)), address)
  {
    var page := ActivePage(s);
    ScanSeesAll(s);
    ScanAgreesWithReplay(s.g, s.flash.Get(page), Previous(s.g, ScanStart(s)), address);
  }

  /** Read answers from the logical map and changes nothing. */
  lemma ReadSteady(s: Store, address: nat, pending: map<nat, Word>)
    requires Steady(s) && Mirrors(s, pending)
    ensures
      var m := Contents(s.cache);
      Read(s, address) ==
      (s,
       if address >= s.g.addresses then ReadError else if address in m then ReadOk else NoVariable,
       if address < s.g.addresses && address in m then m[address] else 0)
  {
    var page := ActivePage(s);
    FindPages(s);
    if address < s.g.addresses && s.cache[address] == ERASED_VALUE {
      ScanFindsDurable(s, address);
      if Durable(s, page)[address] != ERASED_VALUE {
        LiveStaysLive(s.g, Durable(s, page), s.staged.buffer, address);
      }
    }
  }

  /** Erased blocks and erased entries carry no status, wherever the backward scan starts among them. */
  lemma StatusBeforeEnd(g: Geometry, p: PageImage, u: nat, at: Position)
    requires IsLog(g, p, u) && u <= at.block <= |p|
    requires at.block < |p| ==> at.entry <= g.entries
    ensures StatusBefore(p, at) == LastStatus(p)
  {
    ErasedSuffix(g, p, u);
    ErasedSuffix(g, p[..at.block], u);
    assert p[..at.block][..u] == p[..u];
    if at.block < |p| {
      var part := p[at.block][..at.entry];
      assert ErasedFrom(part, 0) by { assert IsErased(p[at.block]); }
      ErasedTail([], part, 0);
    }
  }

  lemma QueryActive(s: Store)
    requires Steady(s)
    ensures
      var page := ActivePage(s);
      var t := RefreshPageStatus(s, page);
      t == s.(status := s.status.With(page, LastStatus(s.flash.Get(page))), next := Located(s, page).next)
  {
    hide LastStatus, View, StatusBefore, CleanBlock, FirstErased, FormattedPage, IsErased, ErasedBlock;
    FindPages(s);
    var page := ActivePage(s);
    var p := s.flash.Get(page);
    var u := End(s, page);
    StatusBeforeEnd(s.g, p, u, Position(u, 0));
    StatusBeforeEnd(s.g, p, u, Position(s.g.blocks, 0));
    if s.staged.dirty {
      StatusBeforeEnd(s.g, p, u, Position(u, s.staged.entries));
    }
  }

  /** A status look-up of the other page. */
  lemma QueryOther(s: Store, page: PageId)
    requires Steady(s) && page != ActivePage(s)
    ensures RefreshPageStatus(s, page) == s.(status := s.status.With(page, LastStatus(s.flash.Get(page))))
  {
    hide LastStatus, StatusBefore, Appending, FormattedPage;
    FindPages(s);
  }

  /** The cursor may be the located one, and statuses what the flash says. */
  lemma StillSteady(s: Store, t: Store, page: PageId, pending: map<nat, Word>)
    requires Steady(s) && Mirrors(s, pending)
    requires t.status == s.status.With(page, LastStatus(s.flash.Get(page)))
    requires t == s.(status := t.status, next := t.next)
    requires t.next == s.next || (page == ActivePage(s) && t.next == Located(s, page).next)
    ensures Steady(t) && ActivePage(t) == ActivePage(s) && Mirrors(t, pending)
  {
    hide LastStatus, View, CleanLog, FirstErased, ErasedBlock, FormattedPage, Located, Overlay;
    FormattedPageFacts(s.g);
    var active := ActivePage(s);
    LocatedFacts(s, active);
    assert Appending(t, active);
    SameView(s, t, active);
  }

  lemma SameView(s: Store, t: Store, page: PageId)
    requires t.g == s.g && t.flash == s.flash && t.staged == s.staged
    ensures View(t, page) == View(s, page)
  {
  }

  /** A status look-up reports the last record of the log, whether it starts at the cursor or at the page end. */
  lemma QuerySteady(s: Store, page: PageId, pending: map<nat, Word>)
    requires Steady(s) && Mirrors(s, pending)
    ensures
      var t := RefreshPageStatus(s, page);
      && t.status == s.status.With(page, LastStatus(s.flash.Get(page)))
      && t == s.(status := t.status, next := t.next)
      && Steady(t) && ActivePage(t) == ActivePage(s) && Mirrors(t, pending)
  {
    hide RefreshPageStatus, Steady, Mirrors, LastStatus, Located;
    SteadySized(s);
    if page == ActivePage(s) {
      QueryActive(s);
    } else {
      QueryOther(s, page);
    }
    StillSteady(s, RefreshPageStatus(s, page), page, pending);
  }
}
