/** Packing of initial values, and what it means that a section has been initialised. */
module LessDbInit {
  import opened Prelude
  import opened LessDbLayout
  import opened LessDbCells
  import opened LessDbStore

  /** What initialisation works from. */
  datatype Plan = Plan(layout: seq<Block>, base: nat, entries: seq<ProviderEntry>, uid: bv32)

  function Wanted(plan: Plan, b: nat, s: nat, p: nat): bv32
    requires HasSection(plan.layout, b, s)
  {
    Intended(plan.layout, plan.entries, plan.uid, b, s, p)
  }

  ghost predicate Holds(plan: Plan, mem: seq<bv8>) {
    BlocksPlaced(plan.layout) && FitsIn(plan.layout, plan.base, mem)
  }

  /**
   The parameters before `n` hold what they are meant to, masked to their width; values with an access of
   their own fitted without masking.
   */
  ghost predicate InitialisedUpTo(plan: Plan, mem: seq<bv8>, b: nat, s: nat, n: nat)
    requires Holds(plan, mem) && HasSection(plan.layout, b, s)
  {
    var kind := plan.layout[b].sections[s].kind;
    forall p: nat :: p < n && HasParameter(plan.layout, b, s, p) ==>
      && Value(plan.layout, plan.base, mem, b, s, p) == Masked(kind, Wanted(plan, b, s, p))
      && (IsPacked(kind) || Masked(kind, Wanted(plan, b, s, p)) == Wanted(plan, b, s, p))
  }

  ghost predicate Initialised(plan: Plan, mem: seq<bv8>, b: nat, s: nat)
    requires Holds(plan, mem) && HasSection(plan.layout, b, s)
  {
    InitialisedUpTo(plan, mem, b, s, plan.layout[b].sections[s].count)
  }

  /** No value with an access of its own is too wide for it. */
  ghost predicate Fitting(plan: Plan, b: nat, s: nat)
    requires HasSection(plan.layout, b, s)
  {
    var kind := plan.layout[b].sections[s].kind;
    !IsPacked(kind) ==>
      forall p: nat :: HasParameter(plan.layout, b, s, p) ==> Fit(kind, Wanted(plan, b, s, p)) == Wanted(plan, b, s, p)
  }

  /** A section whose bytes stay the same stays initialised. */
  lemma StaysInitialised(plan: Plan, a: seq<bv8>, c: seq<bv8>, b: nat, s: nat)
    requires Holds(plan, a) && Holds(plan, c) && HasSection(plan.layout, b, s) && Initialised(plan, a, b, s)
    requires SameBytes(a, c, plan.base + Start(plan.layout, b, s), plan.base + End(plan.layout, b, s))
    ensures Initialised(plan, c, b, s)
  {
    hide Value, Wanted, Masked, BlocksPlaced, SameBytes;
    forall p: nat | HasParameter(plan.layout, b, s, p)
      ensures Value(plan.layout, plan.base, c, b, s, p) == Value(plan.layout, plan.base, a, b, s, p)
    {
      SameSectionSameValue(plan.layout, plan.base, a, c, b, s, p);
    }
  }

  // ---------------------------------------------------------------- values with an access of their own

  lemma FitIsMasked(kind: Kind, v: bv32)
    requires !IsPacked(kind)
    ensures Masked(kind, v) == Fit(kind, v)
  {
  }

  /** Writing the access of parameter `n` extends the initialised part by it. */
  lemma PlainStep(plan: Plan, a: seq<bv8>, c: seq<bv8>, b: nat, s: nat, n: nat)
    requires Holds(plan, a) && Holds(plan, c) && HasParameter(plan.layout, b, s, n)
    requires !IsPacked(plan.layout[b].sections[s].kind) && InitialisedUpTo(plan, a, b, s, n)
    requires
      var kind := plan.layout[b].sections[s].kind;
      var at := CellAddress(plan.layout, plan.base, b, s, n);
      var v := Wanted(plan, b, s, n);
      at + Width(kind) <= |a| && Fit(kind, v) == v && c == Stored(a, at, kind, v)
    ensures InitialisedUpTo(plan, c, b, s, n + 1)
  {
    hide BlocksPlaced, LayoutSize, CellAddress, Stored, Decode, Wanted, Start, Size, Masked, Fit;
    var kind := plan.layout[b].sections[s].kind;
    var v := Wanted(plan, b, s, n);
    FitIsMasked(kind, v);
    DecodeStored(a, CellAddress(plan.layout, plan.base, b, s, n), kind, v);
    forall p: nat | p < n + 1 && HasParameter(plan.layout, b, s, p)
      ensures Value(plan.layout, plan.base, c, b, s, p) == Masked(kind, Wanted(plan, b, s, p))
      ensures Masked(kind, Wanted(plan, b, s, p)) == Wanted(plan, b, s, p)
    {
      if p < n {
        EarlierCell(plan, a, b, s, p, n, v);
      }
    }
  }

  lemma EarlierCell(plan: Plan, a: seq<bv8>, b: nat, s: nat, p: nat, n: nat, v: bv32)
    requires Holds(plan, a) && HasParameter(plan.layout, b, s, n) && p < n
    requires !IsPacked(plan.layout[b].sections[s].kind)
    requires CellAddress(plan.layout, plan.base, b, s, n) + Width(plan.layout[b].sections[s].kind) <= |a|
    ensures
      var c := Stored(a, CellAddress(plan.layout, plan.base, b, s, n), plan.layout[b].sections[s].kind, v);
      Holds(plan, c) && Value(plan.layout, plan.base, c, b, s, p) == Value(plan.layout, plan.base, a, b, s, p)
  {
    hide BlocksPlaced, LayoutSize, Decode, Start, Size, Extract, SameBytes, Stored;
    var kind := plan.layout[b].sections[s].kind;
    var at, other := CellAddress(plan.layout, plan.base, b, s, n), CellAddress(plan.layout, plan.base, b, s, p);
    CellInside(plan.layout, plan.base, b, s, p);
    CellsApart(kind, p, n);
    StoredOutside(a, at, kind, v, other, other + Width(kind));
    SameDecode(a, Stored(a, at, kind, v), other, other + Width(kind), other, kind);
  }

  // ---------------------------------------------------------------- packed values

  /** One round of the loop that gathers bits. */
  function AddBit(x: bv32, mask: bv32, v: bv32): bv32 {
    if v & 1 != 0 then x | mask else x
  }

  predicate IsByte(x: bv32) {
    x & 0xFF == x
  }

  /** The byte `init_data` builds for the bits from `first` on, after `n` of them. */
  function BitsPacked(plan: Plan, b: nat, s: nat, first: nat, n: nat): bv32
    requires HasSection(plan.layout, b, s) && n <= 8
  {
    if n == 0 then 0
    else
      var x := BitsPacked(plan, b, s, first, n - 1);
      if first + n - 1 < plan.layout[b].sections[s].count
      then AddBit(x, BitMask(n - 1), Wanted(plan, b, s, first + n - 1)) else x
  }

  lemma AddBitRight(x: bv32, m: bv32, n: bv32, v: bv32)
    requires IsBitMask(m) && IsBitMask(n) && IsByte(x)
    ensures m != n ==> GetBit(AddBit(x, m, v), n) == GetBit(x, n)
    ensures GetBit(x, m) == 0 ==> GetBit(AddBit(x, m, v), m) == Masked(Bit, v)
    ensures IsByte(AddBit(x, m, v))
  {
  }

  lemma NoBits(n: bv32)
    ensures GetBit(0, n) == 0 && IsByte(0)
  {
  }

  lemma {:induction false} BitsPackedRight(plan: Plan, b: nat, s: nat, first: nat, n: nat, k: nat)
    requires HasSection(plan.layout, b, s) && n <= 8 && k < 8
    ensures
      GetBit(BitsPacked(plan, b, s, first, n), BitMask(k)) ==
      if k < n && first + k < plan.layout[b].sections[s].count then Masked(Bit, Wanted(plan, b, s, first + k)) else 0
    ensures IsByte(BitsPacked(plan, b, s, first, n))
  {
    hide GetBit, BitMask, IsBitMask, Wanted, AddBit, Masked, IsByte;
    BitMasks(k, k);
    if n == 0 {
      NoBits(BitMask(k));
    } else {
      BitsPackedRight(plan, b, s, first, n - 1, k);
      BitMasks(n - 1, k);
      AddBitRight(BitsPacked(plan, b, s, first, n - 1), BitMask(n - 1), BitMask(k), Wanted(plan, b, s, first + n - 1));
    }
  }

  function TwoNibbles(v: bv32, both: bool, w: bv32): bv32 {
    (v & 0xF) | (if both then (w & 0xF) << 4 else 0)
  }

  /** The byte `init_data` builds for the two nibbles from `first` on. */
  function NibblesPacked(plan: Plan, b: nat, s: nat, first: nat): bv32
    requires HasSection(plan.layout, b, s)
  {
    TwoNibbles(Wanted(plan, b, s, first), first + 1 < plan.layout[b].sections[s].count, Wanted(plan, b, s, first + 1))
  }

  lemma NibblesApart(v: bv32, both: bool, w: bv32)
    ensures GetNibble(TwoNibbles(v, both, w), false) == Masked(HalfByte, v)
    ensures both ==> GetNibble(TwoNibbles(v, both, w), true) == Masked(HalfByte, w)
    ensures IsByte(TwoNibbles(v, both, w))
  {
  }

  /** The parameters of one packed byte. */
  function PerByte(kind: Kind): nat {
    if kind.Bit? then 8 else 2
  }

  function PackedByte(plan: Plan, b: nat, s: nat, first: nat): bv32
    requires HasSection(plan.layout, b, s)
  {
    if plan.layout[b].sections[s].kind.Bit? then BitsPacked(plan, b, s, first, 8) else NibblesPacked(plan, b, s, first)
  }

  /** Where a row of packed parameters and their neighbours are. */
  lemma PackedPlace(kind: Kind, first: nat, p: nat)
    requires IsPacked(kind) && first % PerByte(kind) == 0
    ensures p < first ==> CellOffset(kind, p) < CellOffset(kind, first)
    ensures first <= p < first + PerByte(kind) ==> CellOffset(kind, p) == CellOffset(kind, first)
    ensures first <= p < first + PerByte(kind) ==> p % PerByte(kind) == p - first
  {
    if kind.Bit? {
      assert first == 8 * (first / 8);
    } else {
      assert first == 2 * (first / 2);
    }
  }

  /** A packed byte holds each of its parameters. */
  lemma PackedByteRight(plan: Plan, b: nat, s: nat, first: nat, p: nat)
    requires HasParameter(plan.layout, b, s, p) && IsPacked(plan.layout[b].sections[s].kind)
    requires
      var per := PerByte(plan.layout[b].sections[s].kind);
      first % per == 0 && first <= p < first + per
    ensures
      var kind := plan.layout[b].sections[s].kind;
      && Extract(PackedByte(plan, b, s, first), kind, p) == Masked(kind, Wanted(plan, b, s, p))
      && IsByte(PackedByte(plan, b, s, first))
  {
    hide GetBit, GetNibble, BitMask, Wanted, BitsPacked, TwoNibbles, Masked, IsByte;
    PackedPlace(plan.layout[b].sections[s].kind, first, p);
    if plan.layout[b].sections[s].kind.Bit? {
      BitsPackedRight(plan, b, s, first, 8, p - first);
    } else {
      NibblesApart(Wanted(plan, b, s, first), first + 1 < plan.layout[b].sections[s].count,
                   Wanted(plan, b, s, first + 1));
    }
  }

  /** Writing a packed byte extends the initialised part by its parameters. */
  lemma PackedStep(plan: Plan, a: seq<bv8>, c: seq<bv8>, b: nat, s: nat, first: nat)
    requires Holds(plan, a) && Holds(plan, c) && HasSection(plan.layout, b, s)
    requires IsPacked(plan.layout[b].sections[s].kind) && first % PerByte(plan.layout[b].sections[s].kind) == 0
    requires CellAddress(plan.layout, plan.base, b, s, first) < |a|
    requires InitialisedUpTo(plan, a, b, s, first)
    requires c == Stored(a, CellAddress(plan.layout, plan.base, b, s, first), ByteWide, PackedByte(plan, b, s, first))
    ensures InitialisedUpTo(plan, c, b, s, first + PerByte(plan.layout[b].sections[s].kind))
  {
    hide BlocksPlaced, LayoutSize, Stored, Decode, Wanted, Start, Size, Masked, Extract, PackedByte, IsByte, SameBytes,
         CellOffset, PerByte;
    var kind := plan.layout[b].sections[s].kind;
    var at := CellAddress(plan.layout, plan.base, b, s, first);
    var x := PackedByte(plan, b, s, first);
    DecodeStored(a, at, ByteWide, x);
    forall p: nat | p < first + PerByte(kind) && HasParameter(plan.layout, b, s, p)
      ensures Value(plan.layout, plan.base, c, b, s, p) == Masked(kind, Wanted(plan, b, s, p))
    {
      CellInside(plan.layout, plan.base, b, s, p);
      PackedPlace(kind, first, p);
      var other := CellAddress(plan.layout, plan.base, b, s, p);
      if p < first {
        StoredOutside(a, at, ByteWide, x, other, other + 1);
        SameDecode(a, c, other, other + 1, other, kind);
      } else {
        PackedByteRight(plan, b, s, first, p);
        SameDecodeOneByte(c, at, kind);
        ByteFits(x);
      }
    }
  }

  lemma ByteFits(x: bv32)
    requires IsByte(x)
    ensures Fit(ByteWide, x) == x
  {
  }

  lemma PackedFits(plan: Plan, b: nat, s: nat, first: nat)
    requires HasParameter(plan.layout, b, s, first) && IsPacked(plan.layout[b].sections[s].kind)
    requires first % PerByte(plan.layout[b].sections[s].kind) == 0
    ensures Fit(ByteWide, PackedByte(plan, b, s, first)) == PackedByte(plan, b, s, first)
  {
    hide PackedByte, Wanted;
    PackedByteRight(plan, b, s, first, first);
    ByteFits(PackedByte(plan, b, s, first));
  }

  lemma SameDecodeOneByte(mem: seq<bv8>, at: nat, kind: Kind)
    requires at < |mem| && IsPacked(kind)
    ensures Decode(mem, at, kind) == Decode(mem, at, ByteWide)
  {
  }

  lemma NothingInitialised(plan: Plan, mem: seq<bv8>, b: nat, s: nat)
    requires Holds(plan, mem) && HasSection(plan.layout, b, s)
    ensures InitialisedUpTo(plan, mem, b, s, 0)
  {
  }

  lemma EnoughInitialised(plan: Plan, mem: seq<bv8>, b: nat, s: nat, n: nat)
    requires Holds(plan, mem) && HasSection(plan.layout, b, s)
    requires InitialisedUpTo(plan, mem, b, s, n) && n >= plan.layout[b].sections[s].count
    ensures Initialised(plan, mem, b, s)
  {
    hide Value, Wanted, Masked;
  }

  lemma WantedIs(plan: Plan, b: nat, s: nat, p: nat)
    requires HasSection(plan.layout, b, s)
    ensures
      Wanted(plan, b, s, p) ==
      Provided(plan.entries, plan.uid, InitRequest(b, s, p), DefaultOf(plan.layout[b].sections[s], p))
  {
  }

  lemma FirstCell(layout: seq<Block>, base: nat, b: nat, s: nat)
    requires HasSection(layout, b, s)
    ensures CellAddress(layout, base, b, s, 0) == base + layout[b].offset + layout[b].sections[s].address
  {
  }

  lemma NextCell(layout: seq<Block>, base: nat, b: nat, s: nat, p: nat)
    requires HasSection(layout, b, s) && !IsPacked(layout[b].sections[s].kind)
    ensures
      CellAddress(layout, base, b, s, p + 1) ==
      CellAddress(layout, base, b, s, p) + Width(layout[b].sections[s].kind)
  {
  }

  lemma OneNibble(v: bv32, w: bv32)
    ensures TwoNibbles(v, false, 0) == TwoNibbles(v, false, w)
  {
  }

  lemma {:induction false} NoMoreBits(plan: Plan, b: nat, s: nat, first: nat, n: nat)
    requires HasSection(plan.layout, b, s) && n <= 8 && first + n >= plan.layout[b].sections[s].count
    ensures BitsPacked(plan, b, s, first, 8) == BitsPacked(plan, b, s, first, n)
    decreases 8 - n
  {
    if n < 8 {
      NoMoreBits(plan, b, s, first, n + 1);
    }
  }

  /** One round of the loop that gathers nibbles. */
  function AddNibble(x: bv32, half: nat, v: bv32): bv32 {
    if half == 0 then x | (v & 0xF) else x | ((v & 0xF) << 4)
  }

  lemma AddNibbles(v: bv32, w: bv32)
    ensures AddNibble(0, 0, v) == TwoNibbles(v, false, 0)
    ensures AddNibble(TwoNibbles(v, false, 0), 1, w) == TwoNibbles(v, true, w)
  {
  }

  // ---------------------------------------------------------------- all sections

  predicate Skipped(layout: seq<Block>, partial: bool, b: nat, s: nat)
    requires HasSection(layout, b, s)
  {
    partial && layout[b].sections[s].preserve
  }

  /** The initialised part: every section before section `s` of block `b` that is not skipped. */
  ghost predicate DoneBefore(plan: Plan, partial: bool, mem: seq<bv8>, b: nat, s: nat)
    requires Holds(plan, mem)
  {
    forall c: nat, t: nat ::
      HasSection(plan.layout, c, t) && !Skipped(plan.layout, partial, c, t) && (c < b || (c == b && t < s)) ==>
        Initialised(plan, mem, c, t)
  }

  ghost predicate SectionSame(plan: Plan, a: seq<bv8>, c: seq<bv8>, b: nat, s: nat)
    requires HasSection(plan.layout, b, s)
  {
    SameBytes(a, c, plan.base + Start(plan.layout, b, s), plan.base + End(plan.layout, b, s))
  }

  /** The skipped sections are as they were. */
  ghost predicate Kept(plan: Plan, partial: bool, before: seq<bv8>, now: seq<bv8>) {
    forall c: nat, t: nat :: HasSection(plan.layout, c, t) && Skipped(plan.layout, partial, c, t) ==>
      SectionSame(plan, before, now, c, t)
  }

  lemma AllKept(plan: Plan, partial: bool, mem: seq<bv8>)
    requires Holds(plan, mem)
    ensures Kept(plan, partial, mem, mem) && DoneBefore(plan, partial, mem, 0, 0)
  {
    hide BlocksPlaced, LayoutSize, Start, Size, Initialised;
    forall c: nat, t: nat | HasSection(plan.layout, c, t) ensures SectionSame(plan, mem, mem, c, t) {
      SectionWithin(plan.layout, c, t);
    }
  }

  /** Initialising one section leaves the others as far as they were. */
  lemma SectionDone(plan: Plan, partial: bool, before: seq<bv8>, previous: seq<bv8>, now: seq<bv8>, b: nat, s: nat)
    requires Holds(plan, previous) && Holds(plan, now) && HasSection(plan.layout, b, s)
    requires !Skipped(plan.layout, partial, b, s)
    requires DoneBefore(plan, partial, previous, b, s) && Kept(plan, partial, before, previous)
    requires OnlyWithin(previous, now, plan.base + Start(plan.layout, b, s), plan.base + End(plan.layout, b, s))
    ensures Kept(plan, partial, before, now)
    ensures Initialised(plan, now, b, s) ==> DoneBefore(plan, partial, now, b, s + 1)
  {
    hide BlocksPlaced, LayoutSize, Initialised, Start, Size, OnlyWithin, SectionSame, Skipped;
    forall c: nat, t: nat | HasSection(plan.layout, c, t) && Skipped(plan.layout, partial, c, t)
      ensures SectionSame(plan, before, now, c, t)
    {
      OtherSectionSame(plan.layout, plan.base, previous, now, b, s, c, t);
      SameTwice(plan, before, previous, now, c, t);
    }
    if Initialised(plan, now, b, s) {
      forall c: nat, t: nat |
        HasSection(plan.layout, c, t) && !Skipped(plan.layout, partial, c, t) && (c < b || (c == b && t < s + 1))
        ensures Initialised(plan, now, c, t)
      {
        if c != b || t != s {
          OtherSectionSame(plan.layout, plan.base, previous, now, b, s, c, t);
          StaysInitialised(plan, previous, now, c, t);
        }
      }
    }
  }

  lemma SameTwice(plan: Plan, a: seq<bv8>, b: seq<bv8>, c: seq<bv8>, d: nat, t: nat)
    requires HasSection(plan.layout, d, t) && SectionSame(plan, a, b, d, t)
    requires SameBytes(b, c, plan.base + Start(plan.layout, d, t), plan.base + End(plan.layout, d, t))
    ensures SectionSame(plan, a, c, d, t)
  {
  }

  /** Skipped sections keep their values. */
  lemma KeptValues(plan: Plan, partial: bool, before: seq<bv8>, now: seq<bv8>)
    requires Holds(plan, before) && Holds(plan, now) && Kept(plan, partial, before, now)
    ensures
      forall b: nat, s: nat, p: nat :: HasParameter(plan.layout, b, s, p) && Skipped(plan.layout, partial, b, s) ==>
        Value(plan.layout, plan.base, now, b, s, p) == Value(plan.layout, plan.base, before, b, s, p)
  {
    hide BlocksPlaced, LayoutSize, Start, Size, Value, Skipped;
    forall b: nat, s: nat, p: nat | HasParameter(plan.layout, b, s, p) && Skipped(plan.layout, partial, b, s)
      ensures Value(plan.layout, plan.base, now, b, s, p) == Value(plan.layout, plan.base, before, b, s, p)
    {
      assert SectionSame(plan, before, now, b, s);
      SameSectionSameValue(plan.layout, plan.base, before, now, b, s, p);
    }
  }

  // ---------------------------------------------------------------- what a parameter is reset to, spelled out

  /** The provider is registered for this layout, block and section, and has a value for the parameter. */
  predicate Gives(e: ProviderEntry, uid: bv32, r: InitRequest) {
    && e.layoutUid == uid && e.block == r.block && e.section == r.section
    && e.provider.Some? && e.provider.value(r).Some?
  }

  predicate NobodyGives(entries: seq<ProviderEntry>, uid: bv32, r: InitRequest) {
    forall k :: 0 <= k < |entries| ==> !Gives(entries[k], uid, r)
  }

  predicate FirstToGive(entries: seq<ProviderEntry>, uid: bv32, r: InitRequest, k: nat) {
    k < |entries| && Gives(entries[k], uid, r) && forall j :: 0 <= j < k ==> !Gives(entries[j], uid, r)
  }

  /** A parameter index in the 32 bits of a value. */
  function Dword(p: nat): bv32 {
    (p % 0x1_0000_0000) as bv32
  }

  /** The default with the parameter index added, modulo the width of a value. */
  function PlusIndex(default: bv32, p: nat): bv32 {
    default + Dword(p)
  }

  /** What parameter `p` is reset to by default. */
  function FromDefault(section: Section, p: nat): bv32 {
    if section.kind.Bit? then section.default & 1
    else if section.kind.HalfByte? then section.default & 0xF
    else if section.autoIncrement then PlusIndex(section.default, p)
    else section.default
  }

  /**
   The parameter holds what it is reset to: the value of the first provider that has one; else the default, which
   is counted up from parameter to parameter (modulo the width of a value) in sections of bytes, words or double
   words that ask for it.  A bit keeps the lowest bit of either, a nibble the lowest four.
   */
  ghost predicate ResetTo(section: Section, entries: seq<ProviderEntry>, uid: bv32, r: InitRequest, v: bv32) {
    && (forall k: nat :: FirstToGive(entries, uid, r, k) ==>
          var given := entries[k].provider.value(r).value;
          v == if section.kind.Bit? then given & 1 else if section.kind.HalfByte? then given & 0xF else given)
    && (NobodyGives(entries, uid, r) ==> v == FromDefault(section, r.parameter))
  }

  predicate FitsKind(kind: Kind, v: bv32) {
    (kind.ByteWide? ==> v < 0x100) && (kind.WordWide? ==> v < 0x1_0000)
  }

  /** Bytes and words are not masked: what they are reset to has to fit. */
  ghost predicate CanHold(section: Section, entries: seq<ProviderEntry>, uid: bv32, r: InitRequest) {
    && (forall k: nat :: FirstToGive(entries, uid, r, k) ==>
          FitsKind(section.kind, entries[k].provider.value(r).value))
    && (NobodyGives(entries, uid, r) ==>
          FitsKind(section.kind, FromDefault(section, r.parameter)))
  }

  lemma {:induction false} ProvidedFirst(entries: seq<ProviderEntry>, uid: bv32, r: InitRequest, default: bv32, k: nat)
    requires FirstToGive(entries, uid, r, k)
    ensures Provided(entries, uid, r, default) == entries[k].provider.value(r).value
    decreases k
  {
    if k > 0 {
      assert !Gives(entries[0], uid, r);
      forall j | 0 <= j < k - 1 ensures !Gives(entries[1..][j], uid, r) {
        assert !Gives(entries[j + 1], uid, r);
      }
      ProvidedFirst(entries[1..], uid, r, default, k - 1);
    }
  }

  lemma {:induction false} ProvidedByNobody(entries: seq<ProviderEntry>, uid: bv32, r: InitRequest, default: bv32)
    requires NobodyGives(entries, uid, r)
    ensures Provided(entries, uid, r, default) == default
    decreases |entries|
  {
    if entries != [] {
      assert !Gives(entries[0], uid, r);
      ProvidedByNobody(entries[1..], uid, r, default);
    }
  }

  lemma {:induction false} SomebodyIsFirst(entries: seq<ProviderEntry>, uid: bv32, r: InitRequest)
    ensures NobodyGives(entries, uid, r) || exists k: nat :: FirstToGive(entries, uid, r, k)
    decreases |entries|
  {
    if entries != [] {
      var n := |entries| - 1;
      SomebodyIsFirst(entries[..n], uid, r);
      if NobodyGives(entries[..n], uid, r) {
        forall j | 0 <= j < n ensures !Gives(entries[j], uid, r) {
          assert !Gives(entries[..n][j], uid, r);
        }
        assert Gives(entries[n], uid, r) ==> FirstToGive(entries, uid, r, n);
      } else {
        var k: nat :| FirstToGive(entries[..n], uid, r, k);
        forall j | 0 <= j < k ensures !Gives(entries[j], uid, r) {
          assert !Gives(entries[..n][j], uid, r);
        }
        assert FirstToGive(entries, uid, r, k);
      }
    }
  }

  lemma NarrowIs(p: nat)
    ensures Narrow(p) == Dword(p)
  {
  }

  lemma CountedUpSum(default: bv32, p: nat)
    ensures CountedUp(default, p) == default + Dword(p)
  {
    hide Narrow, Dword;
    NarrowIs(p);
  }

  lemma PlusIndexSum(default: bv32, p: nat)
    ensures PlusIndex(default, p) == default + Dword(p)
  {
    hide Dword;
  }

  lemma CountedUpIs(default: bv32, p: nat)
    ensures CountedUp(default, p) == PlusIndex(default, p)
  {
    hide CountedUp, PlusIndex, Dword;
    CountedUpSum(default, p);
    PlusIndexSum(default, p);
  }

  lemma PackedDefault(section: Section, p: nat)
    requires IsPacked(section.kind)
    ensures Masked(section.kind, DefaultOf(section, p)) == FromDefault(section, p)
  {
    hide CountedUp, PlusIndex;
  }

  lemma PlainDefault(section: Section, p: nat)
    requires !IsPacked(section.kind)
    ensures DefaultOf(section, p) == FromDefault(section, p)
  {
    hide CountedUp, PlusIndex;
    CountedUpIs(section.default, p);
  }

  lemma GivenMasked(kind: Kind, given: bv32)
    requires IsPacked(kind)
    ensures Masked(kind, given) == if kind.Bit? then given & 1 else given & 0xF
  {
  }

  /** What `init_data` wants, masked to the width of the parameter, is what the parameter is reset to. */
  lemma WantedResets(plan: Plan, b: nat, s: nat, p: nat, v: bv32)
    requires HasSection(plan.layout, b, s)
    requires
      var kind := plan.layout[b].sections[s].kind;
      && v == Masked(kind, Wanted(plan, b, s, p)) && (IsPacked(kind) || v == Wanted(plan, b, s, p))
    ensures ResetTo(plan.layout[b].sections[s], plan.entries, plan.uid, InitRequest(b, s, p), v)
  {
    hide Provided, FirstToGive, NobodyGives, Wanted, Masked, DefaultOf, FromDefault;
    var section, r := plan.layout[b].sections[s], InitRequest(b, s, p);
    var default := DefaultOf(section, p);
    WantedIs(plan, b, s, p);
    if IsPacked(section.kind) {
      PackedDefault(section, p);
      GivenMasked(section.kind, Wanted(plan, b, s, p));
    } else {
      PlainDefault(section, p);
    }
    forall k: nat | FirstToGive(plan.entries, plan.uid, r, k)
      ensures k < |plan.entries| && Gives(plan.entries[k], plan.uid, r)
      ensures Wanted(plan, b, s, p) == plan.entries[k].provider.value(r).value
    {
      FirstGives(plan.entries, plan.uid, r, k);
      ProvidedFirst(plan.entries, plan.uid, r, default, k);
    }
    if NobodyGives(plan.entries, plan.uid, r) {
      ProvidedByNobody(plan.entries, plan.uid, r, default);
    }
  }

  lemma FirstGives(entries: seq<ProviderEntry>, uid: bv32, r: InitRequest, k: nat)
    requires FirstToGive(entries, uid, r, k)
    ensures k < |entries| && Gives(entries[k], uid, r)
  {
  }

  lemma FitsKindFits(kind: Kind, v: bv32)
    requires FitsKind(kind, v) && !IsPacked(kind)
    ensures Fit(kind, v) == v
  {
  }

  lemma CanHoldWanted(plan: Plan, b: nat, s: nat, p: nat)
    requires HasSection(plan.layout, b, s) && !IsPacked(plan.layout[b].sections[s].kind)
    requires CanHold(plan.layout[b].sections[s], plan.entries, plan.uid, InitRequest(b, s, p))
    ensures Fit(plan.layout[b].sections[s].kind, Wanted(plan, b, s, p)) == Wanted(plan, b, s, p)
  {
    hide Provided, FirstToGive, NobodyGives, Wanted, FitsKind, Fit, DefaultOf, FromDefault;
    var section, r := plan.layout[b].sections[s], InitRequest(b, s, p);
    var default := DefaultOf(section, p);
    WantedIs(plan, b, s, p);
    PlainDefault(section, p);
    SomebodyIsFirst(plan.entries, plan.uid, r);
    if NobodyGives(plan.entries, plan.uid, r) {
      ProvidedByNobody(plan.entries, plan.uid, r, default);
    } else {
      var k: nat :| FirstToGive(plan.entries, plan.uid, r, k);
      FirstGives(plan.entries, plan.uid, r, k);
      ProvidedFirst(plan.entries, plan.uid, r, default, k);
    }
    FitsKindFits(section.kind, Wanted(plan, b, s, p));
  }

  /** Everything that is not skipped holds what it is reset to. */
  lemma AllReset(plan: Plan, partial: bool, mem: seq<bv8>)
    requires Holds(plan, mem)
    requires
      forall b: nat, s: nat :: HasSection(plan.layout, b, s) && !Skipped(plan.layout, partial, b, s) ==>
        Initialised(plan, mem, b, s)
    ensures
      forall b: nat, s: nat, p: nat ::
        HasParameter(plan.layout, b, s, p) && !(partial && plan.layout[b].sections[s].preserve) ==>
          ResetTo(plan.layout[b].sections[s], plan.entries, plan.uid, InitRequest(b, s, p),
                  Value(plan.layout, plan.base, mem, b, s, p))
  {
    hide BlocksPlaced, LayoutSize, Value, Wanted, ResetTo, Masked;
    forall b: nat, s: nat, p: nat |
      HasParameter(plan.layout, b, s, p) && !(partial && plan.layout[b].sections[s].preserve)
      ensures ResetTo(plan.layout[b].sections[s], plan.entries, plan.uid, InitRequest(b, s, p),
                      Value(plan.layout, plan.base, mem, b, s, p))
    {
      assert Initialised(plan, mem, b, s);
      WantedResets(plan, b, s, p, Value(plan.layout, plan.base, mem, b, s, p));
    }
  }

  /** If every parameter can hold what it is reset to, no write is too wide. */
  lemma AllFitting(plan: Plan, partial: bool)
    requires
      forall b: nat, s: nat, p: nat ::
        HasParameter(plan.layout, b, s, p) && !(partial && plan.layout[b].sections[s].preserve) ==>
          CanHold(plan.layout[b].sections[s], plan.entries, plan.uid, InitRequest(b, s, p))
    ensures
      forall b: nat, s: nat :: HasSection(plan.layout, b, s) && !Skipped(plan.layout, partial, b, s) ==>
        Fitting(plan, b, s)
  {
    hide CanHold, Wanted, Fit;
    forall b: nat, s: nat | HasSection(plan.layout, b, s) && !Skipped(plan.layout, partial, b, s)
      ensures Fitting(plan, b, s)
    {
      if !IsPacked(plan.layout[b].sections[s].kind) {
        forall p: nat | HasParameter(plan.layout, b, s, p)
          ensures Fit(plan.layout[b].sections[s].kind, Wanted(plan, b, s, p)) == Wanted(plan, b, s, p)
        {
          CanHoldWanted(plan, b, s, p);
        }
      }
    }
  }
}
