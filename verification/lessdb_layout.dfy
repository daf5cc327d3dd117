/** LessDb layouts: blocks of sections of parameters, placed one after another in a byte store. */
module LessDbLayout {
  import opened Prelude

  datatype Kind = Bit | ByteWide | HalfByte | WordWide | DwordWide

  datatype Section = Section(
    count: nat,
    kind: Kind,
    preserve: bool,
    autoIncrement: bool,
    default: bv32,
    address: nat)

  datatype Block = Block(sections: seq<Section>, offset: nat)

  /** Bytes taken by `n` parameters of a kind. */
  function SectionByteSize(n: nat, kind: Kind): nat {
    match kind
    case Bit => n / 8 + (if n % 8 != 0 then 1 else 0)
    case HalfByte => n / 2 + (if n % 2 != 0 then 1 else 0)
    case ByteWide => n
    case WordWide => n * 2
    case DwordWide => n * 4
  }

  function Size(s: Section): nat {
    SectionByteSize(s.count, s.kind)
  }

  /** Bytes of the first `n` sections. */
  function Before(sections: seq<Section>, n: nat): nat
    requires n <= |sections|
  {
    if n == 0 then 0 else Before(sections, n - 1) + Size(sections[n - 1])
  }

  method BlockByteSize(b: Block) returns (size: nat)
    ensures size == Before(b.sections, |b.sections|)
  {
    size := 0;
    for i := 0 to |b.sections|
      invariant size == Before(b.sections, i)
    {
      size := size + Size(b.sections[i]);
    }
  }

  function BlocksBefore(blocks: seq<Block>, n: nat): nat
    requires n <= |blocks|
  {
    if n == 0 then 0 else BlocksBefore(blocks, n - 1) + Before(blocks[n - 1].sections, |blocks[n - 1].sections|)
  }

  /** Every section starts where the one before it ends. */
  ghost predicate SectionsPlaced(sections: seq<Section>) {
    forall i :: 0 <= i < |sections| ==> sections[i].address == Before(sections, i)
  }

  ghost predicate BlocksPlaced(blocks: seq<Block>) {
    forall i :: 0 <= i < |blocks| ==>
      blocks[i].offset == BlocksBefore(blocks, i) && SectionsPlaced(blocks[i].sections)
  }

  /** The sections of `a` and `b` are the same but for where they are placed. */
  predicate SameSections(a: seq<Section>, b: seq<Section>) {
    |a| == |b| && forall i :: 0 <= i < |a| ==> a[i].(address := 0) == b[i].(address := 0)
  }

  predicate SameBlocks(a: seq<Block>, b: seq<Block>) {
    |a| == |b| && forall i :: 0 <= i < |a| ==> a[i].sections == b[i].sections
  }

  lemma {:induction false} SameBefore(a: seq<Section>, b: seq<Section>, n: nat)
    requires SameSections(a, b) && n <= |a|
    ensures Before(a, n) == Before(b, n)
  {
    if n > 0 {
      SameBefore(a, b, n - 1);
      assert a[n - 1].(address := 0) == b[n - 1].(address := 0);
    }
  }

  lemma {:induction false} SameBlocksBefore(a: seq<Block>, b: seq<Block>, n: nat)
    requires SameBlocks(a, b) && n <= |a|
    ensures BlocksBefore(a, n) == BlocksBefore(b, n)
  {
    if n > 0 {
      SameBlocksBefore(a, b, n - 1);
    }
  }

  lemma NothingBefore(sections: seq<Section>)
    ensures Before(sections, 0) == 0
  {
  }

  lemma BeforeNext(sections: seq<Section>, n: nat)
    requires n < |sections|
    ensures Before(sections, n + 1) == Before(sections, n) + SectionByteSize(sections[n].count, sections[n].kind)
  {
  }

  lemma NoBlocksBefore(blocks: seq<Block>)
    ensures BlocksBefore(blocks, 0) == 0
  {
  }

  lemma BlocksBeforeNext(blocks: seq<Block>, n: nat)
    requires n < |blocks|
    ensures
      BlocksBefore(blocks, n + 1) == BlocksBefore(blocks, n) + Before(blocks[n].sections, |blocks[n].sections|)
  {
  }

  /** `make_block`: the same sections, each stamped with where it starts. */
  method MakeBlock(sections: seq<Section>) returns (placed: seq<Section>)
    ensures SameSections(placed, sections) && SectionsPlaced(placed)
  {
    hide Before;
    NothingBefore(sections);
    var addresses := new nat[|sections|](_ => 0);
    var i := 1;
    while i < |sections|
      invariant i >= 1
      invariant forall k :: 0 <= k < i && k < |sections| ==> addresses[k] == Before(sections, k)
    {
      BeforeNext(sections, i - 1);
      addresses[i] := addresses[i - 1] + SectionByteSize(sections[i - 1].count, sections[i - 1].kind);
      i := i + 1;
    }
    placed := seq(|sections|, k requires 0 <= k < |sections| reads addresses => sections[k].(address := addresses[k]));
    forall i | 0 <= i < |placed| ensures placed[i].address == Before(placed, i) {
      SameBefore(placed, sections, i);
    }
  }

  /** `make_layout`: the same blocks, each stamped with where it starts. */
  method MakeLayout(blocks: seq<Block>) returns (placed: seq<Block>)
    ensures SameBlocks(placed, blocks) && forall i :: 0 <= i < |placed| ==> placed[i].offset == BlocksBefore(placed, i)
    ensures (forall i :: 0 <= i < |blocks| ==> SectionsPlaced(blocks[i].sections)) ==> BlocksPlaced(placed)
  {
    hide Before, BlocksBefore, SectionsPlaced;
    NoBlocksBefore(blocks);
    var offsets := new nat[|blocks|](_ => 0);
    var i := 1;
    while i < |blocks|
      invariant i >= 1
      invariant forall k :: 0 <= k < i && k < |blocks| ==> offsets[k] == BlocksBefore(blocks, k)
    {
      var size := BlockByteSize(blocks[i - 1]);
      BlocksBeforeNext(blocks, i - 1);
      offsets[i] := offsets[i - 1] + size;
      i := i + 1;
    }
    placed := seq(|blocks|, k requires 0 <= k < |blocks| reads offsets => blocks[k].(offset := offsets[k]));
    forall i | 0 <= i < |placed| ensures placed[i].offset == BlocksBefore(placed, i) {
      SameBlocksBefore(placed, blocks, i);
    }
  }

  /** `layout_size` */
  function LayoutSize(layout: seq<Block>): nat {
    if layout == [] then 0
    else
      var last := layout[|layout| - 1];
      last.offset + Before(last.sections, |last.sections|)
  }

  // ---------------------------------------------------------------- places

  predicate HasSection(layout: seq<Block>, b: nat, s: nat) {
    b < |layout| && s < |layout[b].sections|
  }

  predicate HasParameter(layout: seq<Block>, b: nat, s: nat, p: nat) {
    HasSection(layout, b, s) && p < layout[b].sections[s].count
  }

  /** Offset of a section from the start of the layout. */
  function Start(layout: seq<Block>, b: nat, s: nat): nat
    requires HasSection(layout, b, s)
  {
    layout[b].offset + layout[b].sections[s].address
  }

  function End(layout: seq<Block>, b: nat, s: nat): nat
    requires HasSection(layout, b, s)
  {
    Start(layout, b, s) + Size(layout[b].sections[s])
  }

  lemma {:induction false} BeforeMonotone(sections: seq<Section>, m: nat, n: nat)
    requires m <= n <= |sections|
    ensures Before(sections, m) <= Before(sections, n)
    decreases n
  {
    if m < n {
      BeforeMonotone(sections, m, n - 1);
    }
  }

  lemma {:induction false} BlocksBeforeMonotone(blocks: seq<Block>, m: nat, n: nat)
    requires m <= n <= |blocks|
    ensures BlocksBefore(blocks, m) <= BlocksBefore(blocks, n)
    decreases n
  {
    if m < n {
      BlocksBeforeMonotone(blocks, m, n - 1);
    }
  }

  lemma SectionWithin(layout: seq<Block>, b: nat, s: nat)
    requires BlocksPlaced(layout) && HasSection(layout, b, s)
    ensures BlocksBefore(layout, b) <= Start(layout, b, s) <= End(layout, b, s) <= BlocksBefore(layout, b + 1)
    ensures End(layout, b, s) <= LayoutSize(layout)
  {
    var sections := layout[b].sections;
    BeforeMonotone(sections, s + 1, |sections|);
    BlocksBeforeMonotone(layout, b + 1, |layout|);
  }

  lemma SectionBounds(layout: seq<Block>, b: nat, s: nat)
    requires BlocksPlaced(layout) && HasSection(layout, b, s)
    ensures Start(layout, b, s) == layout[b].offset + Before(layout[b].sections, s)
    ensures End(layout, b, s) == layout[b].offset + Before(layout[b].sections, s + 1)
  {
  }

  /** Two different sections share no byte. */
  lemma SectionsDisjoint(layout: seq<Block>, b: nat, s: nat, c: nat, t: nat)
    requires BlocksPlaced(layout) && HasSection(layout, b, s) && HasSection(layout, c, t)
    requires b != c || s != t
    ensures End(layout, b, s) <= Start(layout, c, t) || End(layout, c, t) <= Start(layout, b, s)
  {
    hide BlocksPlaced, Before, BlocksBefore, Size;
    SectionWithin(layout, b, s);
    SectionWithin(layout, c, t);
    SectionBounds(layout, b, s);
    SectionBounds(layout, c, t);
    if b < c {
      BlocksBeforeMonotone(layout, b + 1, c);
    } else if c < b {
      BlocksBeforeMonotone(layout, c + 1, b);
    } else if s < t {
      BeforeMonotone(layout[b].sections, s + 1, t);
    } else {
      BeforeMonotone(layout[b].sections, t + 1, s);
    }
  }

  /** Bytes of one access to a parameter of a kind. */
  function Width(kind: Kind): nat {
    match kind
    case WordWide => 2
    case DwordWide => 4
    case _ => 1
  }

  /** Offset of the access for parameter `p` from the start of its section. */
  function CellOffset(kind: Kind, p: nat): nat {
    match kind
    case Bit => p / 8
    case HalfByte => p / 2
    case ByteWide => p
    case WordWide => p * 2
    case DwordWide => p * 4
  }

  /** Cells of one section coincide or are disjoint, and coincide only for parameters packed together. */
  lemma CellsApart(kind: Kind, p: nat, q: nat)
    ensures
      CellOffset(kind, p) == CellOffset(kind, q) ||
      CellOffset(kind, p) + Width(kind) <= CellOffset(kind, q) ||
      CellOffset(kind, q) + Width(kind) <= CellOffset(kind, p)
    ensures
      CellOffset(kind, p) == CellOffset(kind, q) && p != q ==>
        (kind.Bit? && p % 8 != q % 8) || (kind.HalfByte? && p % 2 != q % 2)
  {
  }

  /** A section takes no more than it needs: its last cell ends where it ends. */
  lemma LastCellEnds(n: nat, kind: Kind)
    ensures n > 0 ==> CellOffset(kind, n - 1) + Width(kind) == SectionByteSize(n, kind)
    ensures n == 0 ==> SectionByteSize(n, kind) == 0
  {
  }

  lemma LayoutEnd(layout: seq<Block>)
    requires BlocksPlaced(layout)
    ensures LayoutSize(layout) == BlocksBefore(layout, |layout|)
  {
    if layout != [] {
      BlocksBeforeNext(layout, |layout| - 1);
    }
  }

  lemma BlockPlace(layout: seq<Block>, b: nat)
    requires BlocksPlaced(layout) && b < |layout|
    ensures layout[b].offset == BlocksBefore(layout, b)
  {
  }

  /** Nothing is left free between the sections of a layout, before the first of them or after the last. */
  lemma NothingFree(layout: seq<Block>, b: nat, s: nat)
    requires BlocksPlaced(layout) && HasSection(layout, b, s)
    ensures b == 0 && s == 0 ==> Start(layout, b, s) == 0
    ensures s + 1 < |layout[b].sections| ==> Start(layout, b, s + 1) == End(layout, b, s)
    ensures s + 1 == |layout[b].sections| && b + 1 < |layout| ==> layout[b + 1].offset == End(layout, b, s)
    ensures s + 1 == |layout[b].sections| && b + 1 == |layout| ==> LayoutSize(layout) == End(layout, b, s)
  {
    hide Size, Start, End, Before, BlocksBefore, BlocksPlaced, LayoutSize;
    SectionBounds(layout, b, s);
    BlockPlace(layout, b);
    BlocksBeforeNext(layout, b);
    LayoutEnd(layout);
    NothingBefore(layout[b].sections);
    NoBlocksBefore(layout);
    if s + 1 < |layout[b].sections| {
      SectionBounds(layout, b, s + 1);
    }
    if b + 1 < |layout| {
      BlockPlace(layout, b + 1);
    }
  }
}
