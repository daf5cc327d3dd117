/** How LessDb parameters lie in bytes: little-endian words, and bits and nibbles packed into a byte. */
module LessDbCells {
  import opened Prelude
  import opened LessDbLayout

  // ---------------------------------------------------------------- words in bytes

  function ByteOf(x: bv32, shift: bv32): bv8
    requires shift <= 24
  {
    ((x >> shift) & 0xFF) as bv8
  }

  function Join2(b0: bv8, b1: bv8): bv32 {
    ((b1 as bv32) << 8) | (b0 as bv32)
  }

  function Join4(b0: bv8, b1: bv8, b2: bv8, b3: bv8): bv32 {
    ((b3 as bv32) << 24) | ((b2 as bv32) << 16) | ((b1 as bv32) << 8) | (b0 as bv32)
  }

  function Join1(b0: bv8): bv32 {
    b0 as bv32
  }

  /** What is left of a value in an access of a kind. */
  function Fit(kind: Kind, x: bv32): bv32 {
    match kind
    case WordWide => x & 0xFFFF
    case DwordWide => x
    case _ => x & 0xFF
  }

  /** The value of the access at `at`. */
  function Decode(mem: seq<bv8>, at: nat, kind: Kind): (x: bv32)
    requires at + Width(kind) <= |mem|
  {
    match kind
    case WordWide => Join2(mem[at], mem[at + 1])
    case DwordWide => Join4(mem[at], mem[at + 1], mem[at + 2], mem[at + 3])
    case _ => Join1(mem[at])
  }

  function Bytes(x: bv32, kind: Kind): (s: seq<bv8>)
    ensures |s| == Width(kind)
  {
    match kind
    case WordWide => [ByteOf(x, 0), ByteOf(x, 8)]
    case DwordWide => [ByteOf(x, 0), ByteOf(x, 8), ByteOf(x, 16), ByteOf(x, 24)]
    case _ => [ByteOf(x, 0)]
  }

  /** The memory with an access written. */
  function Stored(mem: seq<bv8>, at: nat, kind: Kind, x: bv32): (r: seq<bv8>)
    requires at + Width(kind) <= |mem|
    ensures |r| == |mem|
  {
    mem[..at] + Bytes(x, kind) + mem[at + Width(kind)..]
  }

  lemma SplitJoined(x: bv32)
    ensures Join1(ByteOf(x, 0)) == x & 0xFF
    ensures Join2(ByteOf(x, 0), ByteOf(x, 8)) == x & 0xFFFF
    ensures Join4(ByteOf(x, 0), ByteOf(x, 8), ByteOf(x, 16), ByteOf(x, 24)) == x
  {
    hide Join4;
    SplitDword(x);
  }

  lemma ByteOfWide(x: bv32, shift: bv32)
    requires shift <= 24
    ensures ByteOf(x, shift) as bv32 == (x >> shift) & 0xFF
  {
  }

  lemma SplitDword(x: bv32)
    ensures Join4(ByteOf(x, 0), ByteOf(x, 8), ByteOf(x, 16), ByteOf(x, 24)) == x
  {
    hide ByteOf;
    ByteOfWide(x, 0);
    ByteOfWide(x, 8);
    ByteOfWide(x, 16);
    ByteOfWide(x, 24);
  }

  lemma JoinedSplit(b0: bv8, b1: bv8, b2: bv8, b3: bv8)
    ensures ByteOf(Join1(b0), 0) == b0
    ensures ByteOf(Join2(b0, b1), 0) == b0 && ByteOf(Join2(b0, b1), 8) == b1
    ensures
      var d := Join4(b0, b1, b2, b3);
      ByteOf(d, 0) == b0 && ByteOf(d, 8) == b1 && ByteOf(d, 16) == b2 && ByteOf(d, 24) == b3
  {
  }

  lemma JoinedFit(b0: bv8, b1: bv8)
    ensures Join1(b0) & 0xFF == Join1(b0) && Join2(b0, b1) & 0xFFFF == Join2(b0, b1)
  {
  }

  /** An access reads back what was written, cut to its width. */
  lemma DecodeStored(mem: seq<bv8>, at: nat, kind: Kind, x: bv32)
    requires at + Width(kind) <= |mem|
    ensures Decode(Stored(mem, at, kind, x), at, kind) == Fit(kind, x)
  {
    hide ByteOf, Join1, Join2, Join4;
    SplitJoined(x);
  }

  /** The value of an access determines its bytes. */
  lemma BytesOfDecode(mem: seq<bv8>, at: nat, kind: Kind)
    requires at + Width(kind) <= |mem|
    ensures Bytes(Decode(mem, at, kind), kind) == mem[at..at + Width(kind)]
    ensures Fit(kind, Decode(mem, at, kind)) == Decode(mem, at, kind)
  {
    hide Bytes, Decode, Fit;
    match kind {
      case WordWide => WordOfDecode(mem, at);
      case DwordWide => DwordOfDecode(mem, at);
      case _ => ByteOfDecode(mem, at, kind);
    }
  }

  lemma ByteOfDecode(mem: seq<bv8>, at: nat, kind: Kind)
    requires at < |mem| && !kind.WordWide? && !kind.DwordWide?
    ensures Bytes(Decode(mem, at, kind), kind) == mem[at..at + 1]
    ensures Fit(kind, Decode(mem, at, kind)) == Decode(mem, at, kind)
  {
    SingleByte(mem[at]);
    assert mem[at..at + 1] == [mem[at]];
  }

  lemma WordOfDecode(mem: seq<bv8>, at: nat)
    requires at + 2 <= |mem|
    ensures Bytes(Decode(mem, at, WordWide), WordWide) == mem[at..at + 2]
    ensures Fit(WordWide, Decode(mem, at, WordWide)) == Decode(mem, at, WordWide)
  {
    hide ByteOf, Join1, Join2, Join4;
    WordBytes(mem[at], mem[at + 1]);
    assert mem[at..at + 2] == [mem[at], mem[at + 1]];
  }

  lemma DwordOfDecode(mem: seq<bv8>, at: nat)
    requires at + 4 <= |mem|
    ensures Bytes(Decode(mem, at, DwordWide), DwordWide) == mem[at..at + 4]
    ensures Fit(DwordWide, Decode(mem, at, DwordWide)) == Decode(mem, at, DwordWide)
  {
    hide ByteOf, Join1, Join2, Join4;
    DwordBytes(mem[at], mem[at + 1], mem[at + 2], mem[at + 3]);
    assert mem[at..at + 4] == [mem[at], mem[at + 1], mem[at + 2], mem[at + 3]];
  }

  lemma SingleByte(b0: bv8)
    ensures [ByteOf(Join1(b0), 0)] == [b0] && Join1(b0) & 0xFF == Join1(b0)
  {
    JoinedSplit(b0, 0, 0, 0);
    JoinedFit(b0, 0);
  }

  lemma WordBytes(b0: bv8, b1: bv8)
    ensures [ByteOf(Join2(b0, b1), 0), ByteOf(Join2(b0, b1), 8)] == [b0, b1]
    ensures Join2(b0, b1) & 0xFFFF == Join2(b0, b1)
  {
    hide ByteOf, Join1, Join2, Join4;
    JoinedSplit(b0, b1, 0, 0);
    JoinedFit(b0, b1);
  }

  lemma DwordBytes(b0: bv8, b1: bv8, b2: bv8, b3: bv8)
    ensures
      var d := Join4(b0, b1, b2, b3);
      [ByteOf(d, 0), ByteOf(d, 8), ByteOf(d, 16), ByteOf(d, 24)] == [b0, b1, b2, b3]
  {
    hide ByteOf, Join1, Join2, Join4;
    JoinedSplit(b0, b1, b2, b3);
  }

  // ---------------------------------------------------------------- parameters in an access

  /** `BIT_MASK` */
  function BitMask(bit: nat): bv32 {
    if bit == 0 then 1 else if bit == 1 then 2 else if bit == 2 then 4 else if bit == 3 then 8
    else if bit == 4 then 16 else if bit == 5 then 32 else if bit == 6 then 64 else 128
  }

  function GetBit(x: bv32, mask: bv32): bv32 {
    if x & mask != 0 then 1 else 0
  }

  function SetBit(x: bv32, mask: bv32, v: bv32): bv32 {
    if v & 1 != 0 then x | mask else x & !mask
  }

  function GetNibble(x: bv32, high: bool): bv32 {
    (if high then x >> 4 else x) & 0xF
  }

  function SetNibble(x: bv32, high: bool, v: bv32): bv32 {
    if high then (x & 0xF) | ((v & 0xF) << 4) else (x & 0xF0) | (v & 0xF)
  }

  /** What a parameter can hold. */
  function Masked(kind: Kind, v: bv32): bv32 {
    match kind
    case Bit => v & 1
    case HalfByte => v & 0xF
    case ByteWide => v & 0xFF
    case WordWide => v & 0xFFFF
    case DwordWide => v
  }

  /** Parameter `p` of the access value `x`. */
  function Extract(x: bv32, kind: Kind, p: nat): bv32 {
    match kind
    case Bit => GetBit(x, BitMask(p % 8))
    case HalfByte => GetNibble(x, p % 2 != 0)
    case _ => Masked(kind, x)
  }

  /** The access value `x` with parameter `p` set to `v`. */
  function Insert(x: bv32, kind: Kind, p: nat, v: bv32): bv32 {
    match kind
    case Bit => SetBit(x, BitMask(p % 8), v)
    case HalfByte => SetNibble(x, p % 2 != 0, v)
    case _ => Masked(kind, v)
  }

  predicate IsBitMask(m: bv32) {
    m in {1, 2, 4, 8, 16, 32, 64, 128}
  }

  lemma BitMasks(i: nat, j: nat)
    requires i < 8 && j < 8
    ensures IsBitMask(BitMask(i)) && (i != j ==> BitMask(i) != BitMask(j))
  {
  }

  lemma BitWritten(x: bv32, m: bv32, v: bv32)
    requires IsBitMask(m)
    ensures GetBit(SetBit(x, m, v), m) == v & 1
  {
  }

  lemma BitApart(x: bv32, m: bv32, n: bv32, v: bv32)
    requires IsBitMask(m) && IsBitMask(n) && m != n
    ensures GetBit(SetBit(x, m, v), n) == GetBit(x, n)
  {
  }

  lemma BitFits(x: bv32, m: bv32, v: bv32)
    requires x & 0xFF == x && IsBitMask(m)
    ensures SetBit(x, m, v) & 0xFF == SetBit(x, m, v)
  {
  }

  lemma NibbleWritten(x: bv32, high: bool, v: bv32)
    ensures GetNibble(SetNibble(x, high, v), high) == v & 0xF
    ensures GetNibble(SetNibble(x, high, v), !high) == GetNibble(x, !high)
    ensures SetNibble(x, high, v) & 0xFF == SetNibble(x, high, v)
  {
  }

  lemma ExtractInserted(x: bv32, kind: Kind, p: nat, v: bv32)
    ensures Extract(Insert(x, kind, p, v), kind, p) == Masked(kind, v)
  {
    hide BitMask, GetBit, SetBit, GetNibble, SetNibble, IsBitMask;
    match kind {
      case Bit =>
        BitMasks(p % 8, p % 8);
        BitWritten(x, BitMask(p % 8), v);
      case HalfByte => NibbleWritten(x, p % 2 != 0, v);
      case _ =>
    }
  }

  /** Setting one parameter of an access leaves the others packed with it alone. */
  lemma ExtractOther(x: bv32, kind: Kind, p: nat, q: nat, v: bv32)
    requires (kind.Bit? && p % 8 != q % 8) || (kind.HalfByte? && p % 2 != q % 2)
    ensures Extract(Insert(x, kind, p, v), kind, q) == Extract(x, kind, q)
  {
    hide BitMask, GetBit, SetBit, GetNibble, SetNibble, IsBitMask;
    match kind {
      case Bit =>
        BitMasks(p % 8, q % 8);
        BitMasks(q % 8, p % 8);
        BitApart(x, BitMask(p % 8), BitMask(q % 8), v);
      case HalfByte => NibbleWritten(x, p % 2 != 0, v);
    }
  }

  /** Setting a parameter keeps the access within its width. */
  lemma InsertFits(x: bv32, kind: Kind, p: nat, v: bv32)
    requires Fit(kind, x) == x
    ensures Fit(kind, Insert(x, kind, p, v)) == Insert(x, kind, p, v)
  {
    hide BitMask, GetBit, SetBit, GetNibble, SetNibble, IsBitMask;
    match kind {
      case Bit =>
        BitMasks(p % 8, p % 8);
        BitFits(x, BitMask(p % 8), v);
      case HalfByte => NibbleWritten(x, p % 2 != 0, v);
      case _ =>
    }
  }

  // ---------------------------------------------------------------- parameters in memory

  /** Bytes `from` to `to` are the same. */
  predicate SameBytes(a: seq<bv8>, b: seq<bv8>, from: nat, to: nat) {
    |a| == |b| && from <= to <= |a| && a[from..to] == b[from..to]
  }

  lemma SameDecode(a: seq<bv8>, b: seq<bv8>, from: nat, to: nat, at: nat, kind: Kind)
    requires SameBytes(a, b, from, to) && from <= at && at + Width(kind) <= to
    ensures Decode(a, at, kind) == Decode(b, at, kind)
  {
    forall i | at <= i < at + Width(kind) ensures a[i] == b[i] {
      assert a[i] == a[from..to][i - from] && b[i] == b[from..to][i - from];
    }
  }

  /** Where an access is, in a memory whose layout starts at `base`. */
  function CellAddress(layout: seq<Block>, base: nat, b: nat, s: nat, p: nat): nat
    requires HasSection(layout, b, s)
  {
    base + Start(layout, b, s) + CellOffset(layout[b].sections[s].kind, p)
  }

  predicate FitsIn(layout: seq<Block>, base: nat, mem: seq<bv8>) {
    base + LayoutSize(layout) <= |mem|
  }

  lemma CellInside(layout: seq<Block>, base: nat, b: nat, s: nat, p: nat)
    requires BlocksPlaced(layout) && HasParameter(layout, b, s, p)
    ensures
      var kind := layout[b].sections[s].kind;
      && base + Start(layout, b, s) <= CellAddress(layout, base, b, s, p)
      && CellAddress(layout, base, b, s, p) + Width(kind) <= base + End(layout, b, s) <= base + LayoutSize(layout)
  {
    hide BlocksPlaced, LayoutSize, Start;
    SectionWithin(layout, b, s);
  }

  /** The value of a parameter. */
  ghost function Value(layout: seq<Block>, base: nat, mem: seq<bv8>, b: nat, s: nat, p: nat): bv32
    requires BlocksPlaced(layout) && FitsIn(layout, base, mem) && HasParameter(layout, b, s, p)
  {
    CellInside(layout, base, b, s, p);
    var kind := layout[b].sections[s].kind;
    Extract(Decode(mem, CellAddress(layout, base, b, s, p), kind), kind, p)
  }

  /** The memory after a parameter has been set. */
  ghost function Updated(layout: seq<Block>, base: nat, mem: seq<bv8>, b: nat, s: nat, p: nat, v: bv32): (r: seq<bv8>)
    requires BlocksPlaced(layout) && FitsIn(layout, base, mem) && HasParameter(layout, b, s, p)
    ensures |r| == |mem|
  {
    CellInside(layout, base, b, s, p);
    var kind := layout[b].sections[s].kind;
    var at := CellAddress(layout, base, b, s, p);
    Stored(mem, at, kind, Insert(Decode(mem, at, kind), kind, p, v))
  }

  /** A parameter reads back what it was set to, masked to its width. */
  lemma UpdatedValue(layout: seq<Block>, base: nat, mem: seq<bv8>, b: nat, s: nat, p: nat, v: bv32)
    requires BlocksPlaced(layout) && FitsIn(layout, base, mem) && HasParameter(layout, b, s, p)
    ensures
      Value(layout, base, Updated(layout, base, mem, b, s, p, v), b, s, p) == Masked(layout[b].sections[s].kind, v)
  {
    hide BlocksPlaced, CellAddress, Decode, Stored, Extract, Insert, Fit, LayoutSize, Masked;
    CellInside(layout, base, b, s, p);
    var kind := layout[b].sections[s].kind;
    var at := CellAddress(layout, base, b, s, p);
    var x := Decode(mem, at, kind);
    BytesOfDecode(mem, at, kind);
    InsertFits(x, kind, p, v);
    DecodeStored(mem, at, kind, Insert(x, kind, p, v));
    ExtractInserted(x, kind, p, v);
  }

  /** What lies outside an access is not written. */
  lemma StoredOutside(mem: seq<bv8>, at: nat, kind: Kind, x: bv32, from: nat, to: nat)
    requires at + Width(kind) <= |mem| && from <= to <= |mem| && (to <= at || at + Width(kind) <= from)
    ensures SameBytes(mem, Stored(mem, at, kind, x), from, to)
  {
    hide Bytes;
    var r := Stored(mem, at, kind, x);
    forall i | from <= i < to ensures r[i] == mem[i] {
    }
  }

  /** Parameters of a section whose bytes are the same have the same values. */
  lemma SameSectionSameValue(
      layout: seq<Block>, base: nat, a: seq<bv8>, c: seq<bv8>, b: nat, s: nat, p: nat)
    requires BlocksPlaced(layout) && FitsIn(layout, base, a) && FitsIn(layout, base, c) && HasParameter(layout, b, s, p)
    requires SameBytes(a, c, base + Start(layout, b, s), base + End(layout, b, s))
    ensures Value(layout, base, a, b, s, p) == Value(layout, base, c, b, s, p)
  {
    hide BlocksPlaced, CellAddress, Decode, Extract, LayoutSize, Start, SameBytes;
    CellInside(layout, base, b, s, p);
    SameDecode(a, c, base + Start(layout, b, s), base + End(layout, b, s),
               CellAddress(layout, base, b, s, p), layout[b].sections[s].kind);
  }

  /** Setting one parameter leaves the value of every other parameter alone. */
  lemma UpdatedOthers(
      layout: seq<Block>, base: nat, mem: seq<bv8>, b: nat, s: nat, p: nat, v: bv32, c: nat, t: nat, q: nat)
    requires BlocksPlaced(layout) && FitsIn(layout, base, mem)
    requires HasParameter(layout, b, s, p) && HasParameter(layout, c, t, q)
    requires b != c || s != t || p != q
    ensures
      Value(layout, base, Updated(layout, base, mem, b, s, p, v), c, t, q) == Value(layout, base, mem, c, t, q)
  {
    hide BlocksPlaced, Decode, Stored, Extract, Insert, Fit, LayoutSize, SameBytes, Start, Size;
    CellInside(layout, base, b, s, p);
    CellInside(layout, base, c, t, q);
    var kind := layout[b].sections[s].kind;
    var at := CellAddress(layout, base, b, s, p);
    var x := Insert(Decode(mem, at, kind), kind, p, v);
    var r := Stored(mem, at, kind, x);
    if b != c || s != t {
      SectionsDisjoint(layout, b, s, c, t);
      StoredOutside(mem, at, kind, x, base + Start(layout, c, t), base + End(layout, c, t));
      SameSectionSameValue(layout, base, mem, r, c, t, q);
    } else {
      SameSectionOthers(mem, at, kind, p, q, v, CellAddress(layout, base, b, s, q),
                        base + Start(layout, b, s));
    }
  }

  lemma SameSectionOthers(
      mem: seq<bv8>, at: nat, kind: Kind, p: nat, q: nat, v: bv32, other: nat, start: nat)
    requires p != q && at == start + CellOffset(kind, p) && other == start + CellOffset(kind, q)
    requires at + Width(kind) <= |mem| && other + Width(kind) <= |mem|
    ensures
      Extract(Decode(Stored(mem, at, kind, Insert(Decode(mem, at, kind), kind, p, v)), other, kind), kind, q) ==
      Extract(Decode(mem, other, kind), kind, q)
  {
    hide Decode, Stored, Extract, Insert, Fit, SameBytes;
    var x := Decode(mem, at, kind);
    var y := Insert(x, kind, p, v);
    CellsApart(kind, p, q);
    if at == other {
      BytesOfDecode(mem, at, kind);
      InsertFits(x, kind, p, v);
      DecodeStored(mem, at, kind, y);
      ExtractOther(x, kind, p, q, v);
    } else {
      StoredOutside(mem, at, kind, y, other, other + Width(kind));
      SameDecode(mem, Stored(mem, at, kind, y), other, other + Width(kind), other, kind);
    }
  }

  // ---------------------------------------------------------------- where in memory a value is

  /** The bit of a byte that bit `i` of a row of eight is. */
  function BitOfByte(x: bv8, i: nat): bv8 {
    (if i == 0 then x else if i == 1 then x >> 1 else if i == 2 then x >> 2 else if i == 3 then x >> 3
     else if i == 4 then x >> 4 else if i == 5 then x >> 5 else if i == 6 then x >> 6 else x >> 7) & 1
  }

  lemma BitIs(x: bv8, bit: nat)
    requires bit < 8
    ensures GetBit(Join1(x), BitMask(bit)) == BitOfByte(x, bit) as bv32
  {
  }

  lemma NibbleIs(x: bv8)
    ensures GetNibble(Join1(x), false) == (x & 0xF) as bv32 && GetNibble(Join1(x), true) == (x >> 4) as bv32
  {
  }

  /** Where the byte of a bit is, counted from where its section is placed, and which bit of it is meant. */
  lemma BitInMemory(layout: seq<Block>, base: nat, mem: seq<bv8>, b: nat, s: nat, p: nat)
    requires BlocksPlaced(layout) && FitsIn(layout, base, mem) && HasParameter(layout, b, s, p)
    requires layout[b].sections[s].kind.Bit?
    ensures
      var at := base + layout[b].offset + layout[b].sections[s].address + p / 8;
      && at < |mem|
      && Value(layout, base, mem, b, s, p) == BitOfByte(mem[at], p % 8) as bv32
  {
    hide BitOfByte, BlocksPlaced, LayoutSize, BitMask, GetNibble, GetBit, Join1, Join2, Join4, Masked;
    CellInside(layout, base, b, s, p);
    BitIs(mem[base + layout[b].offset + layout[b].sections[s].address + p / 8], p % 8);
  }

  /** Where the byte of a nibble is, and which half of it is meant. */
  lemma NibbleInMemory(layout: seq<Block>, base: nat, mem: seq<bv8>, b: nat, s: nat, p: nat)
    requires BlocksPlaced(layout) && FitsIn(layout, base, mem) && HasParameter(layout, b, s, p)
    requires layout[b].sections[s].kind.HalfByte?
    ensures
      var at := base + layout[b].offset + layout[b].sections[s].address + p / 2;
      && at < |mem|
      && Value(layout, base, mem, b, s, p) == (if p % 2 == 0 then mem[at] & 0xF else mem[at] >> 4) as bv32
  {
    hide BlocksPlaced, LayoutSize, BitMask, GetNibble, GetBit, Join1, Join2, Join4, Masked;
    CellInside(layout, base, b, s, p);
    NibbleIs(mem[base + layout[b].offset + layout[b].sections[s].address + p / 2]);
  }

  lemma WideIs(a: bv8, b: bv8, x: bv32)
    ensures Masked(ByteWide, Join1(a)) == a as bv32 && Masked(DwordWide, x) == x
    ensures Masked(WordWide, Join2(a, b)) == Join2(a, b)
  {
  }

  /** Where the bytes of a parameter with an access of its own are. */
  lemma PlainInMemory(layout: seq<Block>, base: nat, mem: seq<bv8>, b: nat, s: nat, p: nat)
    requires BlocksPlaced(layout) && FitsIn(layout, base, mem) && HasParameter(layout, b, s, p)
    ensures
      var section := layout[b].sections[s];
      var at := base + layout[b].offset + section.address;
      var v := Value(layout, base, mem, b, s, p);
      && (section.kind.ByteWide? ==> at + p < |mem| && v == mem[at + p] as bv32)
      && (section.kind.WordWide? ==> at + p * 2 + 1 < |mem| && v == Join2(mem[at + p * 2], mem[at + p * 2 + 1]))
      && (section.kind.DwordWide? ==>
            && at + p * 4 + 3 < |mem|
            && v == Join4(mem[at + p * 4], mem[at + p * 4 + 1], mem[at + p * 4 + 2], mem[at + p * 4 + 3]))
  {
    hide BlocksPlaced, LayoutSize, BitMask, GetNibble, GetBit, Join1, Join2, Join4, Masked;
    CellInside(layout, base, b, s, p);
    var at := base + layout[b].offset + layout[b].sections[s].address;
    match layout[b].sections[s].kind {
      case ByteWide => WideIs(mem[at + p], 0, 0);
      case WordWide => WideIs(mem[at + p * 2], mem[at + p * 2 + 1], 0);
      case DwordWide =>
        WideIs(0, 0, Join4(mem[at + p * 4], mem[at + p * 4 + 1], mem[at + p * 4 + 2], mem[at + p * 4 + 3]));
      case _ =>
    }
  }
}
