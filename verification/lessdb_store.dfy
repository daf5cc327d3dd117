/** The LessDb object over a storage that may fail: reading, updating, initialising, and its read cache. */
module LessDbStore {
  import opened Prelude
  import opened LessDbLayout
  import opened LessDbCells

  /** What one storage operation does: whether it succeeds, and the value a write stores instead of its own. */
  datatype Outcome = Outcome(ok: bool, instead: Option<bv32>)

  /** The memory with `bytes` in place of what was at `at`. */
  function Spliced(mem: seq<bv8>, at: nat, bytes: seq<bv8>): (r: seq<bv8>)
    requires at + |bytes| <= |mem|
    ensures |r| == |mem|
  {
    mem[..at] + bytes + mem[at + |bytes|..]
  }

  lemma SplicedNext(mem: seq<bv8>, at: nat, bytes: seq<bv8>, i: nat)
    requires at + |bytes| <= |mem| && i < |bytes|
    ensures Spliced(mem, at, bytes[..i + 1]) == Spliced(mem, at, bytes[..i])[at + i := bytes[i]]
  {
  }

  /** A byte store.  `plan` decides the outcome of every operation in turn. */
  class Hwa {
    const memory: array<bv8>
    const plan: nat -> Outcome
    var operations: nat

    constructor (memory: array<bv8>, plan: nat -> Outcome)
      ensures this.memory == memory && this.plan == plan
    {
      this.memory, this.plan, operations := memory, plan, 0;
    }

    ghost predicate Healthy() {
      forall i: nat :: plan(i) == Outcome(true, None)
    }

    method Read(address: nat, kind: Kind) returns (r: Option<bv32>)
      requires address + Width(kind) <= memory.Length
      modifies this`operations
      ensures r.Some? ==> r.value == Decode(memory[..], address, kind)
      ensures Healthy() ==> r.Some?
    {
      operations := operations + 1;
      if !plan(operations).ok {
        return None;
      }
      match kind {
        case WordWide => return Some(Join2(memory[address], memory[address + 1]));
        case DwordWide =>
          return Some(Join4(memory[address], memory[address + 1], memory[address + 2], memory[address + 3]));
        case _ => return Some(Join1(memory[address]));
      }
    }

    /** Whatever is reported, some value has been stored, within the access and nowhere else. */
    method Write(address: nat, value: bv32, kind: Kind) returns (ok: bool, ghost stored: bv32)
      requires address + Width(kind) <= memory.Length
      modifies this`operations, memory
      ensures memory[..] == Stored(old(memory[..]), address, kind, stored)
      ensures Healthy() ==> ok && stored == value
    {
      hide ByteOf, Bytes;
      operations := operations + 1;
      var outcome := plan(operations);
      var x := if outcome.instead.Some? then outcome.instead.value else value;
      var bytes := Bytes(x, kind);
      ghost var before := memory[..];
      for i := 0 to |bytes|
        invariant memory[..] == Spliced(before, address, bytes[..i])
      {
        SplicedNext(before, address, bytes, i);
        memory[address + i] := bytes[i];
        assert memory[..] == Spliced(before, address, bytes[..i])[address + i := bytes[i]];
      }
      assert bytes[..|bytes|] == bytes;
      return outcome.ok, x;
    }

    method Clear() returns (ok: bool)
      modifies this`operations, memory
      ensures ok ==> forall i :: 0 <= i < memory.Length ==> memory[i] == 0
      ensures Healthy() ==> ok
      ensures !ok ==> memory[..] == old(memory[..])
    {
      operations := operations + 1;
      if !plan(operations).ok {
        return false;
      }
      for i := 0 to memory.Length
        invariant forall k :: 0 <= k < i ==> memory[k] == 0
      {
        memory[i] := 0;
      }
      return true;
    }
  }

  const INVALID_ADDRESS := 0xFFFF_FFFF

  /** Parameters that share a byte are read through the one-entry cache. */
  predicate IsPacked(kind: Kind) {
    kind.Bit? || kind.HalfByte?
  }

  /** The cached byte is right for every packed parameter whose address it is filed under. */
  ghost predicate CacheRight(layout: seq<Block>, base: nat, mem: seq<bv8>, address: nat, value: bv8) {
    forall b: nat, s: nat, p: nat ::
      HasParameter(layout, b, s, p) && IsPacked(layout[b].sections[s].kind) &&
      CellAddress(layout, base, b, s, p) == address ==>
        address < |mem| && mem[address] == value
  }

  /** The eight-bit byte index into a bit section reaches this far. */
  const MAX_BITS := 2048

  predicate BitsReachable(layout: seq<Block>) {
    forall b, s :: 0 <= b < |layout| && 0 <= s < |layout[b].sections| && layout[b].sections[s].kind.Bit? ==>
      layout[b].sections[s].count <= MAX_BITS
  }

  datatype InitRequest = InitRequest(block: nat, section: nat, parameter: nat)
  type Provider = InitRequest -> Option<bv32>
  datatype ProviderEntry = ProviderEntry(layoutUid: bv32, block: nat, section: nat, provider: Option<Provider>)

  /** The value of the first matching provider that gives one, else the default. */
  function Provided(entries: seq<ProviderEntry>, uid: bv32, request: InitRequest, default: bv32): bv32 {
    if entries == [] then default
    else
      var e := entries[0];
      if e.layoutUid == uid && e.block == request.block && e.section == request.section && e.provider.Some? &&
         e.provider.value(request).Some?
      then e.provider.value(request).value
      else Provided(entries[1..], uid, request, default)
  }

  /** An index in the 32 bits of a value. */
  function Narrow(p: nat): bv32 {
    (p % 0x1_0000_0000) as bv32
  }

  /** The sum is taken modulo the width of a value. */
  function CountedUp(default: bv32, p: nat): bv32 {
    default + Narrow(p)
  }

  /** The default of a parameter: counted up from the section's where that is enabled and the type allows it. */
  function DefaultOf(section: Section, p: nat): bv32 {
    if section.autoIncrement && !IsPacked(section.kind) then CountedUp(section.default, p) else section.default
  }

  /** What `init_data` means a parameter to hold, before it is masked to the parameter's width. */
  function Intended(layout: seq<Block>, entries: seq<ProviderEntry>, uid: bv32, b: nat, s: nat, p: nat): bv32
    requires HasSection(layout, b, s)
  {
    Provided(entries, uid, InitRequest(b, s, p), DefaultOf(layout[b].sections[s], p))
  }

  // ---------------------------------------------------------------- what a write in one section leaves alone

  predicate OnlyWithin(a: seq<bv8>, c: seq<bv8>, from: nat, to: nat) {
    |a| == |c| && forall i :: 0 <= i < |a| && !(from <= i < to) ==> a[i] == c[i]
  }

  lemma StoredWithin(mem: seq<bv8>, at: nat, kind: Kind, x: bv32, from: nat, to: nat)
    requires at + Width(kind) <= |mem| && from <= at && at + Width(kind) <= to
    ensures OnlyWithin(mem, Stored(mem, at, kind, x), from, to)
  {
    hide Bytes;
  }

  lemma SameWithin(a: seq<bv8>, from: nat, to: nat)
    ensures OnlyWithin(a, a, from, to)
  {
  }

  lemma Widen(a: seq<bv8>, b: seq<bv8>, from: nat, to: nat, low: nat, high: nat)
    requires OnlyWithin(a, b, from, to) && low <= from && to <= high
    ensures OnlyWithin(a, b, low, high)
  {
  }

  lemma WithinTwice(a: seq<bv8>, b: seq<bv8>, c: seq<bv8>, from: nat, to: nat)
    requires OnlyWithin(a, b, from, to) && OnlyWithin(b, c, from, to)
    ensures OnlyWithin(a, c, from, to)
  {
  }

  /** A section other than the one written keeps its bytes. */
  lemma OtherSectionSame(layout: seq<Block>, base: nat, a: seq<bv8>, c: seq<bv8>, b: nat, s: nat, d: nat, t: nat)
    requires BlocksPlaced(layout) && FitsIn(layout, base, a)
    requires HasSection(layout, b, s) && HasSection(layout, d, t) && (b != d || s != t)
    requires OnlyWithin(a, c, base + Start(layout, b, s), base + End(layout, b, s))
    ensures SameBytes(a, c, base + Start(layout, d, t), base + End(layout, d, t))
  {
    hide BlocksPlaced, Start, Size, LayoutSize;
    SectionsDisjoint(layout, b, s, d, t);
    SectionWithin(layout, d, t);
  }

  /** Writing in one section, the cache stays right if it is dropped when the written address is cached. */
  lemma CacheKept(
      layout: seq<Block>, base: nat, a: seq<bv8>, c: seq<bv8>, cached: nat, value: bv8, b: nat, s: nat, at: nat)
    requires BlocksPlaced(layout) && FitsIn(layout, base, a) && HasSection(layout, b, s)
    requires CacheRight(layout, base, a, cached, value) && cached != at
    requires OnlyWithin(a, c, base + Start(layout, b, s), base + End(layout, b, s))
    requires IsPacked(layout[b].sections[s].kind) ==> OnlyWithin(a, c, at, at + 1)
    ensures CacheRight(layout, base, c, cached, value)
  {
    hide BlocksPlaced, Start, Size, LayoutSize, CellAddress;
    forall d: nat, t: nat, p: nat |
      HasParameter(layout, d, t, p) && IsPacked(layout[d].sections[t].kind) &&
      CellAddress(layout, base, d, t, p) == cached
      ensures cached < |c| && c[cached] == value
    {
      CellInside(layout, base, d, t, p);
      if d != b || t != s {
        SectionsDisjoint(layout, b, s, d, t);
      }
    }
  }

  lemma NothingCached(layout: seq<Block>, base: nat, mem: seq<bv8>, value: bv8)
    requires BlocksPlaced(layout) && FitsIn(layout, base, mem) && |mem| <= INVALID_ADDRESS
    ensures CacheRight(layout, base, mem, INVALID_ADDRESS, value)
  {
    hide BlocksPlaced, LayoutSize, CellAddress;
    forall d: nat, t: nat, p: nat |
      HasParameter(layout, d, t, p) && IsPacked(layout[d].sections[t].kind) &&
      CellAddress(layout, base, d, t, p) == INVALID_ADDRESS
      ensures false
    {
      CellInside(layout, base, d, t, p);
    }
  }

  /** An address read as part of an unpacked section is never looked up in the cache. */
  lemma UnpackedNeverCached(layout: seq<Block>, base: nat, mem: seq<bv8>, b: nat, s: nat, p: nat, value: bv8)
    requires BlocksPlaced(layout) && FitsIn(layout, base, mem)
    requires HasParameter(layout, b, s, p) && !IsPacked(layout[b].sections[s].kind)
    ensures CacheRight(layout, base, mem, CellAddress(layout, base, b, s, p), value)
  {
    hide BlocksPlaced, LayoutSize, CellAddress, Start, Size;
    CellInside(layout, base, b, s, p);
    forall d: nat, t: nat, q: nat |
      HasParameter(layout, d, t, q) && IsPacked(layout[d].sections[t].kind) &&
      CellAddress(layout, base, d, t, q) == CellAddress(layout, base, b, s, p)
      ensures false
    {
      CellInside(layout, base, d, t, q);
      SectionsDisjoint(layout, b, s, d, t);
    }
  }

  /** A packed parameter lives at the address. */
  ghost predicate PackedAt(layout: seq<Block>, base: nat, address: nat) {
    exists b: nat, s: nat, p: nat ::
      HasParameter(layout, b, s, p) && IsPacked(layout[b].sections[s].kind) &&
      CellAddress(layout, base, b, s, p) == address
  }

  /**
   The cache is not dropped when the store is cleared: it is right afterwards exactly when it holds no
   packed parameter's byte, or a zero.
   */
  lemma CacheAfterClear(layout: seq<Block>, base: nat, mem: seq<bv8>, address: nat, value: bv8)
    requires BlocksPlaced(layout) && FitsIn(layout, base, mem)
    requires forall i :: 0 <= i < |mem| ==> mem[i] == 0
    ensures CacheRight(layout, base, mem, address, value) <==> (PackedAt(layout, base, address) ==> value == 0)
  {
    hide BlocksPlaced, LayoutSize, CellAddress;
    forall b: nat, s: nat, p: nat | HasParameter(layout, b, s, p) && IsPacked(layout[b].sections[s].kind)
      ensures CellAddress(layout, base, b, s, p) < |mem|
    {
      CellInside(layout, base, b, s, p);
    }
  }
}
