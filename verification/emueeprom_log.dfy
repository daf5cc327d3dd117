/**
 The journal inside one EmuEEPROM flash page, seen as a sequence of backend write blocks,
 each a sequence of (address, value) entries.  Everything here is about one page.
 */
module EmuLog {
  import opened Prelude

  const ERASED_VALUE: Word := 0xFFFF
  const RESERVED_STATUS_ADDRESS: Word := 0xFFFF

  datatype Entry = Entry(address: Word, value: Word)

  const ERASED_ENTRY := Entry(0xFFFF, 0xFFFF)

  datatype PageStatus = Valid | Erased | Formatted | Receiving

  function SerializePageStatus(status: PageStatus): Word {
    match status
    case Valid => 0x0000
    case Erased => 0xFFFF
    case Formatted => 0xEEEE
    case Receiving => 0x7777
  }

  function DeserializePageStatus(value: Word): Option<PageStatus> {
    if value == 0x0000 then Some(Valid)
    else if value == 0xEEEE then Some(Formatted)
    else if value == 0x7777 then Some(Receiving)
    else None
  }

  function StatusEntry(status: PageStatus): Entry {
    Entry(RESERVED_STATUS_ADDRESS, SerializePageStatus(status))
  }

  /** The status an entry records, if it is a status record at all. */
  function EntryStatus(e: Entry): Option<PageStatus> {
    if e.address == RESERVED_STATUS_ADDRESS then DeserializePageStatus(e.value) else None
  }

  /** Entries per write block, write blocks per page, logical addresses. */
  datatype Geometry = Geometry(entries: nat, blocks: nat, addresses: nat) {
    /** What the static asserts of the public wrapper leave: three blocks are reserved. */
    predicate Valid() {
      && 1 <= entries
      && 1 <= addresses < RESERVED_STATUS_ADDRESS + 1
      && addresses + 3 * entries <= blocks * entries
    }
  }

  type Block = seq<Entry>
  type PageImage = seq<Block>

  predicate SizedPage(g: Geometry, p: PageImage) {
    |p| == g.blocks && forall b :: 0 <= b < |p| ==> |p[b]| == g.entries
  }

  function ErasedBlock(g: Geometry): (b: Block) {
    seq(g.entries, _ => ERASED_ENTRY)
  }

  function ErasedPage(g: Geometry): (p: PageImage)
    ensures SizedPage(g, p)
  {
    seq(g.blocks, _ => ErasedBlock(g))
  }

  predicate IsErased(b: Block) {
    forall i :: 0 <= i < |b| ==> b[i] == ERASED_ENTRY
  }

  /** The first block at or after `from` that is entirely erased; `|p|` when there is none. */
  function FirstErased(p: PageImage, from: nat := 0): (u: nat)
    requires from <= |p|
    ensures from <= u <= |p|
    ensures u < |p| ==> IsErased(p[u])
    ensures forall b :: from <= b < u ==> !IsErased(p[b])
    decreases |p| - from
  {
    if from == |p| || IsErased(p[from]) then from else FirstErased(p, from + 1)
  }

  /** The last status record among some entries. */
  function BlockStatus(es: Block): Option<PageStatus> {
    if es == [] then None
    else if EntryStatus(es[|es| - 1]).Some? then EntryStatus(es[|es| - 1])
    else BlockStatus(es[..|es| - 1])
  }

  /** The last status record of a page; a page without one counts as erased. */
  function LastStatus(p: PageImage): PageStatus {
    if p == [] then Erased
    else if BlockStatus(p[|p| - 1]).Some? then BlockStatus(p[|p| - 1]).value
    else LastStatus(p[..|p| - 1])
  }

  /** An entry that the RAM mirror can take in: erased, a record of the reserved address, or in range. */
  predicate Loadable(g: Geometry, e: Entry) {
    e == ERASED_ENTRY || e.address == RESERVED_STATUS_ADDRESS || e.address < g.addresses
  }

  predicate LoadableBlock(g: Geometry, b: Block) {
    forall i :: 0 <= i < |b| ==> Loadable(g, b[i])
  }

  predicate LoadableBlocks(g: Geometry, p: PageImage) {
    forall b :: 0 <= b < |p| ==> LoadableBlock(g, p[b])
  }

  /** The RAM mirror: one word per address, 0xFFFF for an address never written. */
  type Mirror = seq<Word>

  function EmptyMirror(g: Geometry): (c: Mirror) {
    seq(g.addresses, _ => ERASED_VALUE)
  }

  function ReplayEntry(c: Mirror, e: Entry): (r: Mirror)
    ensures |r| == |c|
  {
    if e.address == RESERVED_STATUS_ADDRESS || e.address >= |c| then c else c[e.address := e.value]
  }

  function ReplayBlock(c: Mirror, es: Block): (r: Mirror)
    ensures |r| == |c|
  {
    if es == [] then c else ReplayEntry(ReplayBlock(c, es[..|es| - 1]), es[|es| - 1])
  }

  function Replay(c: Mirror, p: PageImage): (r: Mirror)
    ensures |r| == |c|
  {
    if p == [] then c else ReplayBlock(Replay(c, p[..|p| - 1]), p[|p| - 1])
  }

  /** Takes a block into the mirror entry by entry, giving up at the first that is not loadable. */
  function LoadBlock(g: Geometry, c: Mirror, es: Block): (r: (Mirror, bool))
    ensures |r.0| == |c|
  {
    if es == [] then (c, true)
    else
      var (d, ok) := LoadBlock(g, c, es[..|es| - 1]);
      if ok && Loadable(g, es[|es| - 1]) then (ReplayEntry(d, es[|es| - 1]), true) else (d, false)
  }

  /** The mirror so far, the blocks visited, and whether all of them loaded. */
  datatype Loaded = Loaded(cache: Mirror, blocks: nat, ok: bool)

  function LoadBlocks(g: Geometry, p: PageImage): (r: Loaded)
    ensures |r.cache| == g.addresses && r.blocks <= |p|
    ensures r.ok ==> r.blocks == |p|
  {
    if p == [] then Loaded(EmptyMirror(g), 0, true)
    else
      var r := LoadBlocks(g, p[..|p| - 1]);
      if !r.ok then r
      else
        var (d, ok) := LoadBlock(g, r.cache, p[|p| - 1]);
        Loaded(d, |p|, ok)
  }

  /** The logical contents a mirror stands for. */
  function Contents(c: Mirror): map<nat, Word> {
    map a: nat | a < |c| && c[a] != ERASED_VALUE :: c[a]
  }

  // ---------------------------------------------------------------- facts about blocks

  /** Exactly `n` leading entries of the block have been written. */
  ghost predicate ErasedFrom(b: Block, n: nat) {
    n <= |b| && forall i :: n <= i < |b| ==> b[i] == ERASED_ENTRY
  }

  /** A block holding one status record. */
  function StatusBlock(g: Geometry, status: PageStatus): Block
    requires 1 <= g.entries
  {
    ErasedBlock(g)[0 := StatusEntry(status)]
  }

  /** Erased entries at the end of a block carry neither data nor status. */
  lemma {:induction false} ErasedTail(c: Mirror, b: Block, n: nat)
    requires ErasedFrom(b, n)
    ensures ReplayBlock(c, b) == ReplayBlock(c, b[..n])
    ensures BlockStatus(b) == BlockStatus(b[..n])
    decreases |b|
  {
    if n == |b| {
      assert b[..n] == b;
    } else {
      var rest := b[..|b| - 1];
      ErasedTail(c, rest, n);
      assert rest[..n] == b[..n];
      assert b[|b| - 1] == ERASED_ENTRY;
    }
  }

  /** Appending one entry to the written part of a block. */
  lemma StageEntry(c: Mirror, b: Block, n: nat, e: Entry)
    requires ErasedFrom(b, n) && n < |b|
    ensures ErasedFrom(b[n := e], n + 1)
    ensures ReplayBlock(c, b[n := e]) == ReplayEntry(ReplayBlock(c, b), e)
    ensures BlockStatus(b[n := e]) == if EntryStatus(e).Some? then EntryStatus(e) else BlockStatus(b)
  {
    var b' := b[n := e];
    ErasedTail(c, b, n);
    ErasedTail(c, b', n + 1);
    assert b'[..n + 1][..n] == b[..n];
    assert b'[..n + 1][n] == e;
  }

  lemma ErasedBlockIsNeutral(g: Geometry, c: Mirror)
    ensures ReplayBlock(c, ErasedBlock(g)) == c
    ensures BlockStatus(ErasedBlock(g)) == None
    ensures IsErased(ErasedBlock(g))
    ensures ErasedFrom(ErasedBlock(g), 0)
  {
    ErasedTail(c, ErasedBlock(g), 0);
  }

  lemma StatusBlockFacts(g: Geometry, status: PageStatus, c: Mirror)
    requires 1 <= g.entries && status != Erased
    ensures !IsErased(StatusBlock(g, status))
    ensures BlockStatus(StatusBlock(g, status)) == Some(status)
    ensures ReplayBlock(c, StatusBlock(g, status)) == c
    ensures LoadableBlock(g, StatusBlock(g, status))
  {
    ErasedBlockIsNeutral(g, c);
    StageEntry(c, ErasedBlock(g), 0, StatusEntry(status));
    assert StatusBlock(g, status)[0] == StatusEntry(status);
  }

  lemma {:induction false} LoadBlockIsReplay(g: Geometry, c: Mirror, es: Block)
    ensures LoadBlock(g, c, es).1 <==> LoadableBlock(g, es)
    ensures LoadableBlock(g, es) ==> LoadBlock(g, c, es).0 == ReplayBlock(c, es)
  {
    if es != [] {
      LoadBlockIsReplay(g, c, es[..|es| - 1]);
    }
  }

  /** Loading succeeds exactly on in-range logs, and then yields the replay of the whole log. */
  lemma {:induction false} LoadIsReplay(g: Geometry, p: PageImage)
    ensures LoadBlocks(g, p).ok <==> LoadableBlocks(g, p)
    ensures LoadableBlocks(g, p) ==> LoadBlocks(g, p).cache == Replay(EmptyMirror(g), p)
  {
    if p != [] {
      LoadIsReplay(g, p[..|p| - 1]);
      LoadBlockIsReplay(g, LoadBlocks(g, p[..|p| - 1]).cache, p[|p| - 1]);
    }
  }

  // ---------------------------------------------------------------- facts about pages

  /** A page that is a log: `u` written blocks, then erased blocks. */
  ghost predicate IsLog(g: Geometry, p: PageImage, u: nat) {
    && SizedPage(g, p)
    && u <= |p|
    && (forall b :: 0 <= b < u ==> !IsErased(p[b]))
    && (forall b :: u <= b < |p| ==> IsErased(p[b]))
  }

  lemma LogEnd(g: Geometry, p: PageImage, u: nat)
    requires IsLog(g, p, u)
    ensures FirstErased(p) == u
  {
    var v := FirstErased(p);
    assert v == |p| || IsErased(p[v]);
    assert u == |p| || IsErased(p[u]);
  }

  lemma ErasedPageIsLog(g: Geometry)
    ensures IsLog(g, ErasedPage(g), 0)
    ensures LastStatus(ErasedPage(g)) == Erased
    ensures FirstErased(ErasedPage(g)) == 0
  {
    ErasedSuffix(g, ErasedPage(g), 0);
    if g.blocks > 0 {
      assert IsErased(ErasedPage(g)[0]);
    }
  }

  /** Erased blocks at the end of a page carry no status. */
  lemma {:induction false} ErasedSuffix(g: Geometry, p: PageImage, u: nat)
    requires u <= |p|
    requires forall b :: u <= b < |p| ==> IsErased(p[b])
    ensures LastStatus(p) == LastStatus(p[..u])
    decreases |p|
  {
    if u == |p| {
      assert p[..u] == p;
    } else {
      var rest := p[..|p| - 1];
      var last := p[|p| - 1];
      ErasedSuffix(g, rest, u);
      assert rest[..u] == p[..u];
      ErasedTail([], last, 0);
      assert last[..0] == [];
    }
  }

  /** Programming the first erased block of a log extends the log by that block. */
  lemma ExtendLog(g: Geometry, p: PageImage, u: nat, blk: Block, c: Mirror)
    requires IsLog(g, p, u) && u < |p|
    requires |blk| == g.entries && !IsErased(blk)
    ensures IsLog(g, p[u := blk], u + 1)
    ensures p[u := blk][..u + 1] == p[..u] + [blk]
    ensures Replay(c, p[u := blk][..u + 1]) == ReplayBlock(Replay(c, p[..u]), blk)
    ensures LastStatus(p[u := blk]) == if BlockStatus(blk).Some? then BlockStatus(blk).value else LastStatus(p)
  {
    var p' := p[u := blk];
    assert p'[..u + 1][..u] == p[..u];
    ErasedSuffix(g, p, u);
    ErasedSuffix(g, p', u + 1);
  }

  /** The page a runtime page is left as when it is not in use. */
  function FormattedPage(g: Geometry): PageImage
    requires 1 <= g.entries && 1 <= g.blocks
  {
    ErasedPage(g)[0 := StatusBlock(g, Formatted)]
  }

  lemma FormattedPageFacts(g: Geometry)
    requires 1 <= g.entries && 1 <= g.blocks
    ensures IsLog(g, FormattedPage(g), 1)
    ensures LastStatus(FormattedPage(g)) == Formatted
    ensures FirstErased(FormattedPage(g)) == 1
  {
    ErasedPageIsLog(g);
    StatusBlockFacts(g, Formatted, []);
    ExtendLog(g, ErasedPage(g), 0, StatusBlock(g, Formatted), []);
    LogEnd(g, FormattedPage(g), 1);
  }
}
