/** The LessDb object. */
module LessDbDatabase {
  import opened Prelude
  import opened LessDbLayout
  import opened LessDbCells
  import opened LessDbStore
  import opened LessDbInit

  class LessDb {
    const hwa: Hwa
    var initialAddress: nat
    var layoutUid: bv32
    var lastReadValue: bv8
    var lastReadAddress: nat
    var layout: seq<Block>
    var initProviders: seq<ProviderEntry>

    function Memory(): seq<bv8>
      reads hwa.memory
    {
      hwa.memory[..]
    }

    /** A layout that fits, and a cache that is right: what every operation keeps. */
    ghost predicate Valid()
      reads this, hwa.memory
    {
      && Placed()
      && CacheRight(layout, initialAddress, Memory(), lastReadAddress, lastReadValue)
    }

    ghost predicate Placed()
      reads this, hwa.memory
    {
      && hwa.memory.Length <= INVALID_ADDRESS
      && BlocksPlaced(layout) && BitsReachable(layout) && FitsIn(layout, initialAddress, Memory())
    }

    /** The value a parameter has in storage, whatever is cached. */
    ghost function StoredValue(b: nat, s: nat, p: nat): bv32
      requires Placed() && HasParameter(layout, b, s, p)
      reads this, hwa.memory
    {
      Value(layout, initialAddress, Memory(), b, s, p)
    }

    constructor (hwa: Hwa)
      requires hwa.memory.Length <= INVALID_ADDRESS
      ensures Valid() && this.hwa == hwa && layout == [] && initProviders == []
    {
      this.hwa := hwa;
      initialAddress, layoutUid, lastReadValue, lastReadAddress := 0, 0, 0, INVALID_ADDRESS;
      layout, initProviders := [], [];
    }

    predicate CheckParameters(b: nat, s: nat, p: nat)
      reads this
    {
      HasParameter(layout, b, s, p)
    }

    function SectionAddress(b: nat, s: nat): nat
      requires HasSection(layout, b, s)
      reads this
    {
      initialAddress + layout[b].offset + layout[b].sections[s].address
    }

    /** A layout that fits is taken; the cache is left as it is, so it must be empty for the new layout. */
    method SetLayout(blocks: seq<Block>, startAddress: nat, uid: bv32) returns (ok: bool)
      requires hwa.memory.Length <= INVALID_ADDRESS && BlocksPlaced(blocks) && BitsReachable(blocks)
      modifies this`initialAddress, this`layoutUid, this`layout
      ensures ok <==>
              startAddress < hwa.memory.Length && blocks != [] &&
              startAddress + LayoutSize(blocks) <= hwa.memory.Length
      ensures ok ==> layout == blocks && initialAddress == startAddress && layoutUid == uid && Placed()
      ensures ok && lastReadAddress == INVALID_ADDRESS ==> Valid()
      ensures !ok ==> layout == old(layout) && initialAddress == old(initialAddress) && layoutUid == old(layoutUid)
    {
      if startAddress >= hwa.memory.Length {
        return false;
      }
      if blocks == [] {
        return false;
      }
      var totalUsage := LayoutSize(blocks);
      var available := hwa.memory.Length - startAddress;
      if totalUsage > available {
        return false;
      }
      initialAddress := startAddress;
      layoutUid := uid;
      layout := blocks;
      NothingCached(layout, initialAddress, Memory(), lastReadValue);
      return true;
    }

    /** The byte that packs a bit or a nibble, from the cache if it is there. */
    method ReadPacked(b: nat, s: nat, p: nat, address: nat) returns (r: Option<bv32>)
      requires Valid() && HasParameter(layout, b, s, p) && IsPacked(layout[b].sections[s].kind)
      requires address == CellAddress(layout, initialAddress, b, s, p) < hwa.memory.Length
      modifies this`lastReadValue, this`lastReadAddress, hwa`operations
      ensures Valid() && Memory() == old(Memory())
      ensures r.Some? ==> r.value == Decode(Memory(), address, layout[b].sections[s].kind)
      ensures hwa.Healthy() ==> r.Some?
    {
      hide BlocksPlaced, LayoutSize, BitsReachable, CellAddress, Join1;
      if address == lastReadAddress {
        return Some(Join1(lastReadValue));
      }
      r := hwa.Read(address, layout[b].sections[s].kind);
      if r.Some? {
        lastReadValue := LowByte(r.value);
        LowByteOfRead(hwa.memory[address]);
        lastReadAddress := address;
      }
    }

    /** A value with an access of its own; the address is filed in the cache, the value is not. */
    method ReadPlain(b: nat, s: nat, p: nat, address: nat) returns (r: Option<bv32>)
      requires Valid() && HasParameter(layout, b, s, p) && !IsPacked(layout[b].sections[s].kind)
      requires address == CellAddress(layout, initialAddress, b, s, p)
      requires address + Width(layout[b].sections[s].kind) <= hwa.memory.Length
      modifies this`lastReadAddress, hwa`operations
      ensures Valid() && Memory() == old(Memory())
      ensures r.Some? ==> r.value == Decode(Memory(), address, layout[b].sections[s].kind)
      ensures hwa.Healthy() ==> r.Some?
    {
      hide BlocksPlaced, LayoutSize, BitsReachable, CellAddress, CacheRight, Decode;
      r := hwa.Read(address, layout[b].sections[s].kind);
      if r.Some? {
        lastReadAddress := address;
        UnpackedNeverCached(layout, initialAddress, Memory(), b, s, p, lastReadValue);
      }
    }

    /** The switch of `read`, for a parameter that exists. */
    method ReadParameter(b: nat, s: nat, p: nat) returns (r: Option<bv32>)
      requires Valid() && HasParameter(layout, b, s, p)
      requires CellAddress(layout, initialAddress, b, s, p) + Width(layout[b].sections[s].kind) <= hwa.memory.Length
      requires layout[b].sections[s].kind.Bit? ==> p < MAX_BITS
      modifies this`lastReadValue, this`lastReadAddress, hwa`operations
      ensures Valid() && Memory() == old(Memory())
      ensures
        var kind := layout[b].sections[s].kind;
        r.Some? ==> r.value == Extract(Decode(Memory(), CellAddress(layout, initialAddress, b, s, p), kind), kind, p)
      ensures hwa.Healthy() ==> r.Some?
    {
      hide Valid, Decode, Extract, Masked, GetBit, GetNibble, BitMask, ArrayIndex, BitIndex, CellOffset;
      PlainPlace(p);
      var address := SectionAddress(b, s);
      var kind := layout[b].sections[s].kind;
      ghost var x := Decode(Memory(), CellAddress(layout, initialAddress, b, s, p), kind);
      ExtractCases(x, p);
      match kind {
        case Bit =>
          BitPlace(p);
          address := address + ArrayIndex(p);
          r := ReadPacked(b, s, p, address);
          if r.Some? {
            r := Some(GetBit(r.value, BitMask(BitIndex(p))));
          }
        case HalfByte =>
          r := ReadPacked(b, s, p, address + p / 2);
          if r.Some? {
            r := Some(GetNibble(r.value, p % 2 != 0));
          }
        case ByteWide =>
          r := ReadPlain(b, s, p, address + p);
          if r.Some? {
            r := Some(Masked(kind, r.value));
          }
        case WordWide =>
          r := ReadPlain(b, s, p, address + p * 2);
          if r.Some? {
            r := Some(Masked(kind, r.value));
          }
        case DwordWide => r := hwa.Read(address + p * 4, kind);
      }
    }

    /**
     Reading gives the stored value of the parameter or nothing, whether or not it comes from the cache,
     and keeps the cache right.
     */
    method Read(b: nat, s: nat, p: nat) returns (r: Option<bv32>)
      requires Valid()
      modifies this`lastReadValue, this`lastReadAddress, hwa`operations
      ensures Valid() && Memory() == old(Memory())
      ensures r.Some? ==> HasParameter(layout, b, s, p) && r.value == StoredValue(b, s, p)
      ensures
        hwa.Healthy() ==>
          (r.Some? <==> b < |layout| && s < |layout[b].sections| && p < layout[b].sections[s].count)
    {
      hide CacheRight, Value, Extract, Decode, BlocksPlaced, LayoutSize;
      if !CheckParameters(b, s, p) {
        return None;
      }
      Readable(b, s, p);
      r := ReadParameter(b, s, p);
      Readable(b, s, p);
    }

    /** The access of a parameter is within the store, and holds its value. */
    lemma Readable(b: nat, s: nat, p: nat)
      requires Valid() && HasParameter(layout, b, s, p)
      ensures Placed()
      ensures
        var kind := layout[b].sections[s].kind;
        var at := CellAddress(layout, initialAddress, b, s, p);
        && at + Width(kind) <= hwa.memory.Length
        && StoredValue(b, s, p) == Extract(Decode(Memory(), at, kind), kind, p)
        && (kind.Bit? ==> p < MAX_BITS)
    {
      hide Extract, Decode, CacheRight, LayoutSize, BlocksPlaced;
      CellInside(layout, initialAddress, b, s, p);
    }

    /** Writes and reads back; true only if the access now holds exactly the value. */
    method Write(address: nat, value: bv32, kind: Kind) returns (ok: bool)
      requires address + Width(kind) <= hwa.memory.Length
      modifies this`lastReadAddress, hwa`operations, hwa.memory
      ensures lastReadAddress == if old(lastReadAddress) == address then INVALID_ADDRESS else old(lastReadAddress)
      ensures OnlyWithin(old(Memory()), Memory(), address, address + Width(kind))
      ensures ok ==> Fit(kind, value) == value && Memory() == Stored(old(Memory()), address, kind, value)
      ensures hwa.Healthy() && Fit(kind, value) == value ==> ok
    {
      hide Decode, Fit, OnlyWithin, Stored;
      if address == lastReadAddress {
        lastReadAddress := INVALID_ADDRESS;
      }
      ghost var before := Memory();
      var written;
      ghost var stored;
      written, stored := hwa.Write(address, value, kind);
      StoredWithin(before, address, kind, stored, address, address + Width(kind));
      DecodeStored(before, address, kind, stored);
      BytesOfDecode(Memory(), address, kind);
      if written {
        var readValue := hwa.Read(address, kind);
        if readValue.Some? {
          if value == readValue.value {
            StoredFit(before, address, kind, stored);
          }
          return value == readValue.value;
        }
      }
      return false;
    }

    /** The switch of `update`, for a parameter that exists: its access gets the new value, or the update fails. */
    method UpdateParameter(b: nat, s: nat, p: nat, value: bv32) returns (ok: bool)
      requires HasParameter(layout, b, s, p) && (layout[b].sections[s].kind.Bit? ==> p < MAX_BITS)
      requires CellAddress(layout, initialAddress, b, s, p) + Width(layout[b].sections[s].kind) <= hwa.memory.Length
      modifies this`lastReadAddress, hwa`operations, hwa.memory
      ensures hwa.Healthy() ==> ok
      ensures
        var kind := layout[b].sections[s].kind;
        var at := CellAddress(layout, initialAddress, b, s, p);
        && (lastReadAddress == INVALID_ADDRESS ||
            (lastReadAddress == old(lastReadAddress) && (Memory() == old(Memory()) || lastReadAddress != at)))
        && OnlyWithin(old(Memory()), Memory(), at, at + Width(kind))
        && (ok ==>
              Memory() == Stored(old(Memory()), at, kind, Insert(Decode(old(Memory()), at, kind), kind, p, value)))
    {
      hide Decode, Fit, Stored, OnlyWithin, CellOffset, Insert, Masked, Hwa.Healthy, LessDb.PackedUpdate;
      var address := SectionAddress(b, s);
      var kind := layout[b].sections[s].kind;
      ghost var before, cached := Memory(), lastReadAddress;
      PlainPlace(p);
      InsertStaysFit(Memory(), CellAddress(layout, initialAddress, b, s, p), kind, p, value);
      PlainInsert(Decode(Memory(), CellAddress(layout, initialAddress, b, s, p), kind), p, value);
      match kind {
        case Bit =>
          ok := UpdateBit(address, p, value);
          PackedMeans(before, cached, address + CellOffset(Bit, p), Bit, p, value, ok);
        case HalfByte =>
          ok := UpdateNibble(address, p, value);
          PackedMeans(before, cached, address + CellOffset(HalfByte, p), HalfByte, p, value, ok);
        case ByteWide => ok := Write(address + p, Masked(kind, value), kind);
        case WordWide => ok := Write(address + p * 2, Masked(kind, value), kind);
        case DwordWide => ok := Write(address + p * 4, value, kind);
      }
    }

    lemma PackedMeans(before: seq<bv8>, cached: nat, at: nat, kind: Kind, p: nat, value: bv32, ok: bool)
      requires (kind.Bit? || kind.HalfByte?) && at + 1 <= |before|
      requires PackedUpdate(before, cached, at, kind, p, value, ok)
      ensures
        var x := Insert(Decode(before, at, kind), kind, p, value);
        && (lastReadAddress == INVALID_ADDRESS ||
            (lastReadAddress == cached && (Memory() == before || lastReadAddress != at)))
        && OnlyWithin(before, Memory(), at, at + 1)
        && (ok ==> Memory() == Stored(before, at, kind, x))
        && (hwa.Healthy() && Fit(kind, x) == x ==> ok)
    {
    }

    /** The two kinds that share a byte, in a section that starts at `address`. */
    method UpdateBit(address: nat, p: nat, value: bv32) returns (ok: bool)
      requires p < MAX_BITS && address + CellOffset(Bit, p) + 1 <= hwa.memory.Length
      modifies this`lastReadAddress, hwa`operations, hwa.memory
      ensures PackedUpdate(old(Memory()), old(lastReadAddress), address + CellOffset(Bit, p), Bit, p, value, ok)
    {
      hide Decode, SetBit, SetNibble, BitMask, Fit, Stored, OnlyWithin, ArrayIndex, BitIndex, CellOffset, Insert;
      BitPlace(p);
      InsertCases(Decode(Memory(), address + ArrayIndex(p), Bit), p, value);
      ok := SetPacked(address + ArrayIndex(p), Bit, x => SetBit(x, BitMask(BitIndex(p)), value & 1));
    }

    method UpdateNibble(address: nat, p: nat, value: bv32) returns (ok: bool)
      requires address + CellOffset(HalfByte, p) + 1 <= hwa.memory.Length
      modifies this`lastReadAddress, hwa`operations, hwa.memory
      ensures PackedUpdate(old(Memory()), old(lastReadAddress), address + CellOffset(HalfByte, p), HalfByte, p, value,
        ok)
    {
      hide Decode, SetBit, SetNibble, BitMask, Fit, Stored, OnlyWithin, CellOffset, Insert;
      PlainPlace(p);
      InsertCases(Decode(Memory(), address + p / 2, HalfByte), p, value);
      ok := SetPacked(address + p / 2, HalfByte, x => SetNibble(x, p % 2 != 0, value & 0xF));
    }

    /** What setting a parameter that shares its byte at `at` has done to the memory and the cache. */
    ghost predicate PackedUpdate(before: seq<bv8>, cached: nat, at: nat, kind: Kind, p: nat, value: bv32, ok: bool)
      requires (kind.Bit? || kind.HalfByte?) && at + 1 <= |before|
      reads this`lastReadAddress, hwa, hwa.memory
    {
      var x := Insert(Decode(before, at, kind), kind, p, value);
      && (lastReadAddress == INVALID_ADDRESS ||
          (lastReadAddress == cached && (Memory() == before || lastReadAddress != at)))
      && OnlyWithin(before, Memory(), at, at + 1)
      && (ok ==> Memory() == Stored(before, at, kind, x))
      && (hwa.Healthy() && Fit(kind, x) == x ==> ok)
    }

    /** A byte shared by several parameters is read, changed and written back. */
    method SetPacked(address: nat, kind: Kind, change: bv32 -> bv32) returns (ok: bool)
      requires (kind.Bit? || kind.HalfByte?) && address + 1 <= hwa.memory.Length
      modifies this`lastReadAddress, hwa`operations, hwa.memory
      ensures lastReadAddress == INVALID_ADDRESS ||
              (lastReadAddress == old(lastReadAddress) && (Memory() == old(Memory()) || lastReadAddress != address))
      ensures OnlyWithin(old(Memory()), Memory(), address, address + 1)
      ensures
        var x := change(Decode(old(Memory()), address, kind));
        && (ok ==> Memory() == Stored(old(Memory()), address, kind, x))
        && (hwa.Healthy() && Fit(kind, x) == x ==> ok)
    {
      hide Decode, Fit, Stored, OnlyWithin;
      SameWithin(Memory(), address, address + 1);
      var readValue := hwa.Read(address, kind);
      if readValue.None? {
        return false;
      }
      ok := Write(address, change(readValue.value), kind);
    }

    /**
     Updating sets the one parameter, masked to its width; a failing update may spoil the parameters packed
     with it, and nothing else.
     */
    method Update(b: nat, s: nat, p: nat, value: bv32) returns (ok: bool)
      requires Valid()
      modifies this`lastReadAddress, hwa`operations, hwa.memory
      ensures Valid()
      ensures !HasParameter(layout, b, s, p) ==> !ok && Memory() == old(Memory())
      ensures ok ==> HasParameter(layout, b, s, p) && StoredValue(b, s, p) == Masked(layout[b].sections[s].kind, value)
      ensures
        ok ==>
          forall c: nat, t: nat, q: nat :: HasParameter(layout, c, t, q) && (c != b || t != s || q != p) ==>
            StoredValue(c, t, q) == old(StoredValue(c, t, q))
      ensures
        HasParameter(layout, b, s, p) ==>
          var at := CellAddress(layout, initialAddress, b, s, p);
          OnlyWithin(old(Memory()), Memory(), at, at + Width(layout[b].sections[s].kind))
      ensures hwa.Healthy() && b < |layout| && s < |layout[b].sections| && p < layout[b].sections[s].count ==> ok
    {
      hide CacheRight, Value, Extract, Insert, Stored, Decode, BlocksPlaced, LayoutSize, OnlyWithin;
      if layout == [] {
        return false;
      }
      if !CheckParameters(b, s, p) {
        return false;
      }
      ghost var before := Memory();
      Readable(b, s, p);
      ok := UpdateParameter(b, s, p, value);
      AfterWrite(layout, initialAddress, before, Memory(), old(lastReadAddress), lastReadAddress, lastReadValue,
                 b, s, p);
      if ok {
        UpdatedValue(layout, initialAddress, before, b, s, p, value);
        forall c: nat, t: nat, q: nat | HasParameter(layout, c, t, q) && (c != b || t != s || q != p)
          ensures StoredValue(c, t, q) == old(StoredValue(c, t, q))
        {
          UpdatedOthers(layout, initialAddress, before, b, s, p, value, c, t, q);
        }
      }
    }

    method Clear() returns (ok: bool)
      requires Placed()
      modifies hwa`operations, hwa.memory
      ensures Placed() && (hwa.Healthy() ==> ok)
      ensures ok ==> forall i :: 0 <= i < |Memory()| ==> Memory()[i] == 0
      ensures ok ==> (Valid() <==> (PackedAt(layout, initialAddress, lastReadAddress) ==> lastReadValue == 0))
    {
      hide BlocksPlaced, LayoutSize, PackedAt, CacheRight;
      ok := hwa.Clear();
      if ok {
        CacheAfterClear(layout, initialAddress, Memory(), lastReadAddress, lastReadValue);
      }
    }

    method RegisterLayoutInitProvider(b: nat, s: nat, provider: Option<Provider>)
      modifies this`initProviders
      ensures initProviders == old(initProviders) + [ProviderEntry(layoutUid, b, s, provider)]
    {
      initProviders := initProviders + [ProviderEntry(layoutUid, b, s, provider)];
    }

    method ClearInitProviders()
      modifies this`initProviders
      ensures initProviders == []
    {
      initProviders := [];
    }

    method InitValue(b: nat, s: nat, p: nat, default: bv32) returns (v: bv32)
      ensures v == Provided(initProviders, layoutUid, InitRequest(b, s, p), default)
    {
      var request := InitRequest(b, s, p);
      for i := 0 to |initProviders|
        invariant
          Provided(initProviders[i..], layoutUid, request, default) ==
          Provided(initProviders, layoutUid, request, default)
      {
        var e := initProviders[i];
        assert initProviders[i..][1..] == initProviders[i + 1..];
        if e.layoutUid == layoutUid && e.block == request.block && e.section == request.section && e.provider.Some? {
          var value := e.provider.value(request);
          if value.Some? {
            return value.value;
          }
        }
      }
      return default;
    }

    /** What `init_data` works from, as it is now. */
    function InitPlan(): Plan
      reads this`layout, this`initialAddress, this`initProviders, this`layoutUid
    {
      Plan(layout, initialAddress, initProviders, layoutUid)
    }

    ghost function SectionStart(b: nat, s: nat): nat
      requires HasSection(layout, b, s)
      reads this`layout, this`initialAddress
    {
      initialAddress + Start(layout, b, s)
    }

    ghost function SectionEnd(b: nat, s: nat): nat
      requires HasSection(layout, b, s)
      reads this`layout, this`initialAddress
    {
      initialAddress + End(layout, b, s)
    }

    /** One write of `init_data`, to the access of parameter `p`. */
    method InitWrite(b: nat, s: nat, p: nat, address: nat, value: bv32, kind: Kind) returns (ok: bool)
      requires Valid() && HasParameter(layout, b, s, p) && address == CellAddress(layout, initialAddress, b, s, p)
      requires Width(kind) == Width(layout[b].sections[s].kind)
      modifies this`lastReadAddress, hwa`operations, hwa.memory
      ensures Valid() && address + Width(kind) <= |Memory()|
      ensures OnlyWithin(old(Memory()), Memory(), SectionStart(b, s), SectionEnd(b, s))
      ensures ok ==> Fit(kind, value) == value && Memory() == Stored(old(Memory()), address, kind, value)
      ensures hwa.Healthy() && Fit(kind, value) == value ==> ok
    {
      hide BlocksPlaced, LayoutSize, CellAddress, CacheRight, OnlyWithin, Fit, Stored, Start, Size;
      ghost var before := Memory();
      Readable(b, s, p);
      CellInside(layout, initialAddress, b, s, p);
      ok := Write(address, value, kind);
      Widen(before, Memory(), address, address + Width(kind), SectionStart(b, s), SectionEnd(b, s));
      AfterWrite(layout, initialAddress, before, Memory(), old(lastReadAddress), lastReadAddress, lastReadValue,
                 b, s, p);
    }

    method PlainValue(b: nat, s: nat, p: nat) returns (value: bv32)
      requires HasParameter(layout, b, s, p) && !IsPacked(layout[b].sections[s].kind)
      ensures value == Wanted(InitPlan(), b, s, p)
    {
      hide Provided, CountedUp;
      WantedIs(InitPlan(), b, s, p);
      var section := layout[b].sections[s];
      if section.autoIncrement {
        value := InitValue(b, s, p, CountedUp(section.default, p));
      } else {
        value := InitValue(b, s, p, section.default);
      }
    }

    /** The branch for values with an access of their own. */
    method InitPlain(b: nat, s: nat) returns (ok: bool)
      requires Valid() && HasSection(layout, b, s) && !IsPacked(layout[b].sections[s].kind)
      modifies this`lastReadAddress, hwa`operations, hwa.memory
      ensures Valid() && OnlyWithin(old(Memory()), Memory(), SectionStart(b, s), SectionEnd(b, s))
      ensures ok ==> Initialised(InitPlan(), Memory(), b, s)
      ensures hwa.Healthy() && Fitting(InitPlan(), b, s) ==> ok
    {
      hide CacheRight, InitialisedUpTo, OnlyWithin, Stored, Fit, Value, Wanted, BlocksPlaced, LayoutSize, CellAddress,
           Size;
      var section := layout[b].sections[s];
      var address := SectionAddress(b, s);
      FirstCell(layout, initialAddress, b, s);
      NothingInitialised(InitPlan(), Memory(), b, s);
      SameWithin(Memory(), SectionStart(b, s), SectionEnd(b, s));
      for p := 0 to section.count
        invariant Valid() && OnlyWithin(old(Memory()), Memory(), SectionStart(b, s), SectionEnd(b, s))
        invariant address == CellAddress(layout, initialAddress, b, s, p)
        invariant InitialisedUpTo(InitPlan(), Memory(), b, s, p)
      {
        ghost var before := Memory();
        var value := PlainValue(b, s, p);
        ok := InitWrite(b, s, p, address, value, section.kind);
        WithinTwice(old(Memory()), before, Memory(), SectionStart(b, s), SectionEnd(b, s));
        if !ok {
          return false;
        }
        PlainStep(InitPlan(), before, Memory(), b, s, p);
        NextCell(layout, initialAddress, b, s, p);
        address := address + Width(section.kind);
      }
      return true;
    }

    /** The byte of the bits from `first` on. */
    method GatherBits(b: nat, s: nat, first: nat) returns (value: bv32)
      requires HasSection(layout, b, s) && layout[b].sections[s].kind.Bit?
      ensures value == PackedByte(InitPlan(), b, s, first)
    {
      hide AddBit, BitMask, Wanted;
      value := 0;
      var bit := 0;
      while bit < 8
        invariant bit <= 8 && value == BitsPacked(InitPlan(), b, s, first, bit)
      {
        var p := first + bit;
        if p >= layout[b].sections[s].count {
          NoMoreBits(InitPlan(), b, s, first, bit);
          break;
        }
        var wanted := InitValue(b, s, p, layout[b].sections[s].default);
        WantedIs(InitPlan(), b, s, p);
        value := AddBit(value, BitMask(bit), wanted);
        bit := bit + 1;
      }
    }

    /** The byte of the two nibbles from `first` on. */
    method GatherNibbles(b: nat, s: nat, first: nat) returns (value: bv32)
      requires HasParameter(layout, b, s, first) && layout[b].sections[s].kind.HalfByte?
      ensures value == PackedByte(InitPlan(), b, s, first)
    {
      hide AddNibble, TwoNibbles, Wanted;
      value := 0;
      var half := 0;
      ghost var low := Wanted(InitPlan(), b, s, first);
      while half < 2
        invariant half <= 2
        invariant
          value == if half == 0 then 0 else if half == 1 then TwoNibbles(low, false, 0)
                   else TwoNibbles(low, true, Wanted(InitPlan(), b, s, first + 1))
        invariant half == 2 ==> first + 1 < layout[b].sections[s].count
      {
        var p := first + half;
        if p >= layout[b].sections[s].count {
          break;
        }
        var wanted := InitValue(b, s, p, layout[b].sections[s].default);
        WantedIs(InitPlan(), b, s, p);
        AddNibbles(low, wanted);
        value := AddNibble(value, half, wanted);
        half := half + 1;
      }
      OneNibble(low, Wanted(InitPlan(), b, s, first + 1));
    }

    /** The branch for bits: a byte for every eight. */
    method InitBits(b: nat, s: nat) returns (ok: bool)
      requires Valid() && HasSection(layout, b, s) && layout[b].sections[s].kind.Bit?
      modifies this`lastReadAddress, hwa`operations, hwa.memory
      ensures Valid() && OnlyWithin(old(Memory()), Memory(), SectionStart(b, s), SectionEnd(b, s))
      ensures ok ==> Initialised(InitPlan(), Memory(), b, s)
      ensures hwa.Healthy() && Fitting(InitPlan(), b, s) ==> ok
    {
      hide CacheRight, InitialisedUpTo, OnlyWithin, Stored, Fit, Value, Wanted, BlocksPlaced, LayoutSize, AddBit,
           BitMask;
      var section := layout[b].sections[s];
      var address := SectionAddress(b, s);
      var loops := section.count / 8 + (if section.count % 8 != 0 then 1 else 0);
      NothingInitialised(InitPlan(), Memory(), b, s);
      SameWithin(Memory(), SectionStart(b, s), SectionEnd(b, s));
      for loop := 0 to loops
        invariant Valid() && OnlyWithin(old(Memory()), Memory(), SectionStart(b, s), SectionEnd(b, s))
        invariant address == SectionAddress(b, s) + loop
        invariant InitialisedUpTo(InitPlan(), Memory(), b, s, loop * 8)
      {
        var value := GatherBits(b, s, loop * 8);
        PackedFits(InitPlan(), b, s, loop * 8);
        ghost var before := Memory();
        ok := InitWrite(b, s, loop * 8, address, value, ByteWide);
        WithinTwice(old(Memory()), before, Memory(), SectionStart(b, s), SectionEnd(b, s));
        if !ok {
          return false;
        }
        PackedStep(InitPlan(), before, Memory(), b, s, loop * 8);
        address := address + 1;
      }
      EnoughInitialised(InitPlan(), Memory(), b, s, loops * 8);
      return true;
    }

    /** The branch for nibbles: a byte for every two. */
    method InitNibbles(b: nat, s: nat) returns (ok: bool)
      requires Valid() && HasSection(layout, b, s) && layout[b].sections[s].kind.HalfByte?
      modifies this`lastReadAddress, hwa`operations, hwa.memory
      ensures Valid() && OnlyWithin(old(Memory()), Memory(), SectionStart(b, s), SectionEnd(b, s))
      ensures ok ==> Initialised(InitPlan(), Memory(), b, s)
      ensures hwa.Healthy() && Fitting(InitPlan(), b, s) ==> ok
    {
      hide CacheRight, InitialisedUpTo, OnlyWithin, Stored, Fit, Value, Wanted, BlocksPlaced, LayoutSize;
      var section := layout[b].sections[s];
      var address := SectionAddress(b, s);
      var loops := section.count / 2 + (if section.count % 2 != 0 then 1 else 0);
      NothingInitialised(InitPlan(), Memory(), b, s);
      SameWithin(Memory(), SectionStart(b, s), SectionEnd(b, s));
      for loop := 0 to loops
        invariant Valid() && OnlyWithin(old(Memory()), Memory(), SectionStart(b, s), SectionEnd(b, s))
        invariant address == SectionAddress(b, s) + loop
        invariant InitialisedUpTo(InitPlan(), Memory(), b, s, loop * 2)
      {
        var value := GatherNibbles(b, s, loop * 2);
        PackedFits(InitPlan(), b, s, loop * 2);
        ghost var before := Memory();
        ok := InitWrite(b, s, loop * 2, address, value, ByteWide);
        WithinTwice(old(Memory()), before, Memory(), SectionStart(b, s), SectionEnd(b, s));
        if !ok {
          return false;
        }
        PackedStep(InitPlan(), before, Memory(), b, s, loop * 2);
        address := address + 1;
      }
      EnoughInitialised(InitPlan(), Memory(), b, s, loops * 2);
      return true;
    }

    /** The switch of `init_data`. */
    method InitSection(b: nat, s: nat) returns (ok: bool)
      requires Valid() && HasSection(layout, b, s)
      modifies this`lastReadAddress, hwa`operations, hwa.memory
      ensures Valid() && OnlyWithin(old(Memory()), Memory(), SectionStart(b, s), SectionEnd(b, s))
      ensures ok ==> Initialised(InitPlan(), Memory(), b, s)
      ensures hwa.Healthy() && Fitting(InitPlan(), b, s) ==> ok
    {
      hide CacheRight, OnlyWithin, BlocksPlaced, LayoutSize, InitialisedUpTo, Fitting;
      match layout[b].sections[s].kind {
        case Bit => ok := InitBits(b, s);
        case HalfByte => ok := InitNibbles(b, s);
        case _ => ok := InitPlain(b, s);
      }
    }

    /**
     `init_data`: on success every parameter of every section that is not skipped holds what it is meant to;
     whether it succeeds or not, preserved sections keep their values in a partial reset.
     */
    method InitData(partial: bool) returns (ok: bool)
      requires Valid()
      modifies this`lastReadAddress, hwa`operations, hwa.memory
      ensures Valid()
      ensures
        ok ==>
          forall b: nat, s: nat, p: nat ::
            HasParameter(layout, b, s, p) && !(partial && layout[b].sections[s].preserve) ==>
              ResetTo(layout[b].sections[s], initProviders, layoutUid, InitRequest(b, s, p), StoredValue(b, s, p))
      ensures
        forall b: nat, s: nat, p: nat :: HasParameter(layout, b, s, p) && partial && layout[b].sections[s].preserve ==>
          StoredValue(b, s, p) == old(StoredValue(b, s, p))
      ensures
        hwa.Healthy() &&
        (forall b: nat, s: nat, p: nat ::
          HasParameter(layout, b, s, p) && !(partial && layout[b].sections[s].preserve) ==>
            CanHold(layout[b].sections[s], initProviders, layoutUid, InitRequest(b, s, p))) ==>
          ok
    {
      hide InitPlan, CacheRight, BlocksPlaced, LayoutSize, Initialised, Fitting, Value, ResetTo, CanHold, Skipped;
      ghost var before, plan := Memory(), Plan(layout, initialAddress, initProviders, layoutUid);
      PlanIs();
      ok := InitSections(partial);
      if ok {
        AllReset(plan, partial, Memory());
      }
      if forall b: nat, s: nat, p: nat ::
          HasParameter(layout, b, s, p) && !(partial && layout[b].sections[s].preserve) ==>
            CanHold(layout[b].sections[s], initProviders, layoutUid, InitRequest(b, s, p)) {
        AllFitting(plan, partial);
      }
      SkippedIs(layout, partial);
    }

    lemma PlanIs()
      ensures InitPlan() == Plan(layout, initialAddress, initProviders, layoutUid)
    {
    }

    /** The loops of `init_data`. */
    method InitSections(partial: bool) returns (ok: bool)
      requires Valid()
      modifies this`lastReadAddress, hwa`operations, hwa.memory
      ensures Valid()
      ensures
        ok ==>
          forall b: nat, s: nat :: HasSection(layout, b, s) && !Skipped(layout, partial, b, s) ==>
            Initialised(InitPlan(), Memory(), b, s)
      ensures
        forall b: nat, s: nat, p: nat :: HasParameter(layout, b, s, p) && Skipped(layout, partial, b, s) ==>
          StoredValue(b, s, p) == old(StoredValue(b, s, p))
      ensures
        hwa.Healthy() &&
        (forall b: nat, s: nat :: HasSection(layout, b, s) && !Skipped(layout, partial, b, s) ==>
          Fitting(InitPlan(), b, s)) ==>
          ok
    {
      hide CacheRight, OnlyWithin, BlocksPlaced, LayoutSize, InitialisedUpTo, SameBytes, Fitting, Value, Start, Size;
      ghost var before := Memory();
      AllKept(InitPlan(), partial, before);
      for b := 0 to |layout|
        invariant Valid() && DoneBefore(InitPlan(), partial, Memory(), b, 0)
        invariant Kept(InitPlan(), partial, before, Memory())
      {
        for s := 0 to |layout[b].sections|
          invariant Valid() && DoneBefore(InitPlan(), partial, Memory(), b, s)
          invariant Kept(InitPlan(), partial, before, Memory())
        {
          if layout[b].sections[s].preserve && partial {
            continue;
          }
          ghost var previous := Memory();
          ok := InitSection(b, s);
          SectionDone(InitPlan(), partial, before, previous, Memory(), b, s);
          if !ok {
            KeptValues(InitPlan(), partial, before, Memory());
            return false;
          }
        }
      }
      KeptValues(InitPlan(), partial, before, Memory());
      return true;
    }
  }

  lemma SkippedIs(layout: seq<Block>, partial: bool)
    ensures
      forall b: nat, s: nat :: HasSection(layout, b, s) ==>
        (Skipped(layout, partial, b, s) <==> partial && layout[b].sections[s].preserve)
  {
  }

  /** After a write to a parameter's access: the cache is still right. */
  lemma AfterWrite(
      layout: seq<Block>, base: nat, a: seq<bv8>, c: seq<bv8>, was: nat, cached: nat, value: bv8,
      b: nat, s: nat, p: nat)
    requires BlocksPlaced(layout) && FitsIn(layout, base, a) && |a| <= INVALID_ADDRESS && HasParameter(layout, b, s, p)
    requires CacheRight(layout, base, a, was, value)
    requires
      var at := CellAddress(layout, base, b, s, p);
      && OnlyWithin(a, c, at, at + Width(layout[b].sections[s].kind))
      && (cached == INVALID_ADDRESS || (cached == was && (a == c || was != at)))
    ensures FitsIn(layout, base, c) && CacheRight(layout, base, c, cached, value)
  {
    hide CellAddress, LayoutSize, BlocksPlaced, CacheRight, Start, Size;
    var at := CellAddress(layout, base, b, s, p);
    CellInside(layout, base, b, s, p);
    if cached == INVALID_ADDRESS {
      NothingCached(layout, base, c, value);
    } else if a != c {
      CacheKept(layout, base, a, c, cached, value, b, s, at);
    }
  }

  /** The byte index of a bit parameter, kept in eight bits. */
  function ArrayIndex(p: nat): nat {
    (p / 8) % 0x100
  }

  function BitIndex(p: nat): int {
    (p - ArrayIndex(p) * 8) % 0x100
  }

  /** The narrow bit index is always the intended one, the narrow byte index exactly below 2048. */
  lemma BitPlace(p: nat)
    ensures BitIndex(p) == p % 8
    ensures ArrayIndex(p) == CellOffset(Bit, p) <==> p < MAX_BITS
  {
    var q, r := p / 8, p % 8;
    var k, a := q / 0x100, q % 0x100;
    assert p == 8 * q + r && q == 0x100 * k + a;
    assert p - a * 8 == 0x100 * (8 * k) + r;
    LowBits(8 * k, r);
  }

  lemma LowBits(k: nat, r: nat)
    requires r < 0x100
    ensures (0x100 * k + r) % 0x100 == r
  {
  }

  lemma PlainPlace(p: nat)
    ensures CellOffset(HalfByte, p) == p / 2 && CellOffset(ByteWide, p) == p
    ensures CellOffset(WordWide, p) == p * 2 && CellOffset(DwordWide, p) == p * 4
  {
  }

  lemma ExtractCases(x: bv32, p: nat)
    ensures Extract(x, Bit, p) == GetBit(x, BitMask(p % 8)) && Extract(x, HalfByte, p) == GetNibble(x, p % 2 != 0)
    ensures Extract(x, ByteWide, p) == Masked(ByteWide, x) && Extract(x, WordWide, p) == Masked(WordWide, x)
    ensures Extract(x, DwordWide, p) == x
  {
  }

  function LowByte(x: bv32): bv8 {
    (x & 0xFF) as bv8
  }

  lemma LowByteOfRead(b: bv8)
    ensures LowByte(Join1(b)) == b
  {
  }

  lemma StoredFit(mem: seq<bv8>, at: nat, kind: Kind, x: bv32)
    requires at + Width(kind) <= |mem|
    ensures Stored(mem, at, kind, x) == Stored(mem, at, kind, Fit(kind, x))
    ensures Fit(kind, Fit(kind, x)) == Fit(kind, x)
  {
    hide ByteOf;
    SplitJoined(x);
    ByteOfFit(x);
  }

  lemma ByteOfFit(x: bv32)
    ensures ByteOf(x & 0xFF, 0) == ByteOf(x, 0)
    ensures ByteOf(x & 0xFFFF, 0) == ByteOf(x, 0) && ByteOf(x & 0xFFFF, 8) == ByteOf(x, 8)
  {
  }

  lemma InsertStaysFit(mem: seq<bv8>, at: nat, kind: Kind, p: nat, v: bv32)
    requires at + Width(kind) <= |mem|
    ensures
      var x := Insert(Decode(mem, at, kind), kind, p, v);
      Fit(kind, x) == x
  {
    hide Decode, Insert, Fit;
    BytesOfDecode(mem, at, kind);
    InsertFits(Decode(mem, at, kind), kind, p, v);
  }

  lemma PlainInsert(x: bv32, p: nat, v: bv32)
    ensures Insert(x, ByteWide, p, v) == Masked(ByteWide, v) && Insert(x, WordWide, p, v) == Masked(WordWide, v)
    ensures Insert(x, DwordWide, p, v) == v
  {
  }

  lemma InsertCases(x: bv32, p: nat, v: bv32)
    ensures Insert(x, Bit, p, v) == SetBit(x, BitMask(p % 8), v & 1)
    ensures Insert(x, HalfByte, p, v) == SetNibble(x, p % 2 != 0, v & 0xF)
  {
    hide SetBit, SetNibble, BitMask;
    SetMasked(x, BitMask(p % 8), p % 2 != 0, v);
  }

  lemma SetMasked(x: bv32, mask: bv32, high: bool, v: bv32)
    ensures SetBit(x, mask, v & 1) == SetBit(x, mask, v)
    ensures SetNibble(x, high, v & 0xF) == SetNibble(x, high, v)
  {
  }
}
