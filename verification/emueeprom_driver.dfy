/**
 The driver itself, over bytes and in place.  Each method is tied to the value-level operation of
 the same name, so every theorem about runs, transfers and power cuts is one about this class.
 */
module EmuDriver {
  import opened Prelude
  import opened EmuLog
  import opened EmuModel
  import opened EmuBytes
  import opened EmuHwa

  const MIN_INTERNAL_ENTRY_BLOCK_COUNT := 3

  function AddressCountFor(pageSize: nat, writeBlockSize: nat): (n: nat) {
    var pageEntryCount := pageSize / SERIALIZED_ENTRY_SIZE;
    var internalEntryCount := MIN_INTERNAL_ENTRY_BLOCK_COUNT * (writeBlockSize / SERIALIZED_ENTRY_SIZE);
    if pageEntryCount <= internalEntryCount then 0
    else
      var addressCount := pageEntryCount - internalEntryCount;
      if addressCount > RESERVED_STATUS_ADDRESS then RESERVED_STATUS_ADDRESS else addressCount
  }

  /** It is the largest count up to 0xFFFF that leaves three write blocks to spare, and 0 if there is none. */
  lemma AddressCountIsLargest(pageSize: nat, writeBlockSize: nat, m: nat)
    requires writeBlockSize >= 4 && writeBlockSize % 4 == 0 && pageSize % writeBlockSize == 0
    ensures
      var n, E, N := AddressCountFor(pageSize, writeBlockSize), writeBlockSize / 4, pageSize / writeBlockSize;
      && n <= 0xFFFF && (n == 0 || n + 3 * E <= N * E)
      && (m <= 0xFFFF && m + 3 * E <= N * E ==> m <= n)
  {
    var E, N := writeBlockSize / 4, pageSize / writeBlockSize;
    assert pageSize == N * writeBlockSize && writeBlockSize == 4 * E;
    assert pageSize == 4 * (N * E);
  }

  /** The static asserts on page size, write-block size and address count. */
  predicate StaticAsserts(pageSize: nat, writeBlockSize: nat, addresses: nat) {
    && 0 < addresses <= 0xFFFF
    && pageSize > 0
    && pageSize % SERIALIZED_ENTRY_SIZE == 0
    && pageSize % INTERNAL_BLOCK_SIZE == 0
    && writeBlockSize >= SERIALIZED_ENTRY_SIZE
    && writeBlockSize % SERIALIZED_ENTRY_SIZE == 0
    && writeBlockSize <= INTERNAL_BLOCK_SIZE
    && INTERNAL_BLOCK_SIZE % writeBlockSize == 0
    && AddressCountFor(pageSize, writeBlockSize) > 0
    && addresses <= AddressCountFor(pageSize, writeBlockSize)
  }

  lemma DivModIs(x: nat, q: nat, r: nat, w: nat)
    requires x == q * w + r && r < w
    ensures x / w == q && x % w == r
  {
    var q', r' := x / w, x % w;
    assert x == q' * w + r';
    assert (q + 1) * w == q * w + w;
    assert (q' + 1) * w == q' * w + w;
    ProductOrder(q', q + 1, w);
    ProductOrder(q, q' + 1, w);
  }

  lemma MultipleOf(x: nat, w: nat)
    requires 1 <= w
    ensures (x * w) / w == x && (x * w) % w == 0
  {
    DivModIs(x * w, x, 0, w);
  }

  /** `x` lies on a boundary of `w` bytes; a name of its own for proofs that need nothing more. */
  predicate Aligned(x: nat, w: nat)
    requires w > 0
  {
    x % w == 0
  }

  lemma ModTransitive(x: nat, y: nat, w: nat)
    requires 1 <= w && 1 <= y && x % y == 0 && y % w == 0
    ensures x % w == 0
  {
    var a, b := x / y, y / w;
    assert x == a * y && y == b * w;
    assert x == (a * b) * w;
    MultipleOf(a * b, w);
  }

  /** The geometry that the static asserts leave is one in which transfers always fit. */
  lemma GeometryIsValid(pageSize: nat, writeBlockSize: nat, addresses: nat)
    requires StaticAsserts(pageSize, writeBlockSize, addresses)
    ensures pageSize % writeBlockSize == 0
    ensures Geometry(writeBlockSize / 4, pageSize / writeBlockSize, addresses).Valid()
  {
    ModTransitive(pageSize, INTERNAL_BLOCK_SIZE, writeBlockSize);
    var E, N := writeBlockSize / 4, pageSize / writeBlockSize;
    assert pageSize == N * writeBlockSize && writeBlockSize == 4 * E;
    assert pageSize == 4 * (N * E);
  }

  /** Moving a block-aligned offset by one block, or any entry offset by one entry. */
  lemma NextBlock(x: nat, w: nat)
    requires 1 <= w && x % w == 0
    ensures (x + w) % w == 0 && (x + w) / w == x / w + 1
  {
    assert x + w == (x / w + 1) * w + 0;
    DivModIs(x + w, x / w + 1, 0, w);
  }

  lemma AlignedBelow(x: nat, limit: nat, w: nat)
    requires 1 <= w && x % w == 0 && limit % w == 0 && x < limit
    ensures x + w <= limit && x / w < limit / w
  {
    var a, b := x / w, limit / w;
    assert x == a * w && limit == b * w;
    ProductOrder(a, b, w);
    ProductMonotone(a + 1, b, w);
    assert (a + 1) * w == a * w + w;
  }

  /** The slot an entry-aligned byte offset denotes. */
  function At(w: nat, offset: nat): Position
    requires w >= 4
  {
    Position(offset / w, (offset % w) / 4)
  }

  lemma AtSlot(w: nat, offset: nat)
    requires w >= 4 && w % 4 == 0 && offset % 4 == 0
    ensures (offset % w) % 4 == 0 && At(w, offset).entry < w / 4
    ensures offset == At(w, offset).block * w + 4 * At(w, offset).entry
    ensures At(w, offset) == ORIGIN <==> offset == 0
    ensures (offset % w) + 4 <= w
  {
    assert offset == (offset / w) * w + offset % w;
    assert w == 4 * (w / 4);
    assert offset == 4 * ((offset / w) * (w / 4)) + offset % w;
  }

  lemma AtNext(g: Geometry, w: nat, offset: nat)
    requires w >= 4 && w == 4 * g.entries && offset % 4 == 0
    ensures At(w, offset + 4) == Advance(g, At(w, offset))
    ensures At(w, offset + 4) != ORIGIN
  {
    AtSlot(w, offset);
    var b, r := offset / w, offset % w;
    if r + 4 < w {
      DivModIs(offset + 4, b, r + 4, w);
    } else {
      assert (b + 1) * w == b * w + w;
      DivModIs(offset + 4, b + 1, 0, w);
    }
    AtSlot(w, offset + 4);
  }

  lemma AtEnd(w: nat, n: nat, offset: nat)
    requires w >= 4 && w % 4 == 0 && offset % 4 == 0
    ensures At(w, offset).block < n <==> offset + 4 <= n * w
    ensures offset == n * w ==> At(w, offset) == Position(n, 0)
  {
    AtSlot(w, offset);
    var b := offset / w;
    if b < n {
      BlockFits(b, n, w);
    } else {
      ProductMonotone(n, b, w);
    }
    MultipleOf(n, w);
  }

  /** The entry at a byte offset of a page. */
  lemma SlotInImage(data: seq<Byte>, w: nat, n: nat, offset: nat)
    requires w >= 4 && w % 4 == 0 && |data| == n * w && offset % 4 == 0 && offset + 4 <= |data|
    ensures
      var at := At(w, offset);
      && at.block < n && at.entry < |Image(data, w, n)[at.block]| == w / 4
      && Image(data, w, n)[at.block][at.entry] == DecodeEntry(data[offset..offset + 4])
  {
    AtSlot(w, offset);
    AtEnd(w, n, offset);
    var at := At(w, offset);
    BlockFits(at.block, n, w);
    SliceOfSlice(data, at.block * w, w, 4 * at.entry, 4);
  }

  lemma BlockInImage(data: seq<Byte>, w: nat, n: nat, offset: nat)
    requires w >= 4 && w % 4 == 0 && |data| == n * w && offset % w == 0 && offset < |data|
    ensures offset / w < n && offset + w <= |data|
    ensures Image(data, w, n)[offset / w] == BlockOf(data[offset..offset + w])
  {
    var b := offset / w;
    assert offset == b * w;
    ProductOrder(b, n, w);
    BlockFits(b, n, w);
  }

  /** A scan steps back one entry: either it has met a status record or the answer is unchanged. */
  lemma StatusStep(g: Geometry, p: PageImage, at: Position)
    requires SizedPage(g, p) && 1 <= g.entries && at != ORIGIN
    requires at.block <= g.blocks && at.entry < g.entries && (at.block == g.blocks ==> at.entry == 0)
    ensures
      var q := Previous(g, at);
      && q.block < g.blocks && q.entry < g.entries
      && var found := EntryStatus(p[q.block][q.entry]);
         StatusBefore(p, at) == if found.Some? then found.value else StatusBefore(p, q)
  {
    if at.entry > 0 {
      var part := p[at.block][..at.entry];
      assert part[..at.entry - 1] == p[at.block][..at.entry - 1];
    } else {
      var b := at.block - 1;
      assert p[..at.block][..b] == p[..b];
      assert p[b][..g.entries] == p[b];
      var part := p[b];
      assert part[..g.entries - 1] == p[b][..g.entries - 1];
    }
  }

  class EmuEeprom {
    const hwa: Hwa
    const pageSize: nat
    const writeBlockSize: nat
    const maxAddress: nat
    const entriesPerBlock: nat
    const cache: array<Word>
    const writeBlockBuffer: array<Byte>
    var pageStatusCache: Statuses
    var nextWritePage: PageId
    var nextWriteOffset: nat
    var writeBlockPage: PageId
    var writeBlockOffset: nat
    var writeBlockEntries: nat
    var writeBlockDirty: bool
    var cacheDirty: bool

    /** What construction fixes for good. */
    predicate Shape() {
      && hwa.Ok() && hwa.pageSize == pageSize && hwa.writeBlock == writeBlockSize
      && 4 <= writeBlockSize <= INTERNAL_BLOCK_SIZE && writeBlockSize % 4 == 0
      && INTERNAL_BLOCK_SIZE % writeBlockSize == 0 && pageSize % INTERNAL_BLOCK_SIZE == 0
      && Geometry(writeBlockSize / 4, pageSize / writeBlockSize, maxAddress).Valid()
      && entriesPerBlock == writeBlockSize / 4
      && cache.Length == maxAddress
      && writeBlockBuffer.Length == INTERNAL_BLOCK_SIZE
      && writeBlockBuffer != hwa.page1 && writeBlockBuffer != hwa.page2 && writeBlockBuffer != hwa.factory
    }

    ghost function Repr(): set<object> {
      {this, hwa, hwa.page1, hwa.page2, hwa.factory, cache, writeBlockBuffer}
    }

    function Geo(): (g: Geometry)
      requires Shape()
    {
      Geometry(entriesPerBlock, pageSize / writeBlockSize, maxAddress)
    }

    lemma Sizes()
      requires Shape()
      ensures Geo().Valid()
      ensures writeBlockSize == 4 * Geo().entries && pageSize == Geo().blocks * writeBlockSize
      ensures Geo().entries == hwa.Entries() && Geo().blocks == hwa.Blocks()
      ensures 4 <= Geo().blocks && pageSize % 4 == 0 && maxAddress <= 0xFFFF
    {
      hwa.Sizes();
      ProductOrder(3, Geo().blocks, Geo().entries);
    }

    ghost predicate Valid()
      reads Repr()
    {
      && Shape()
      && nextWriteOffset % 4 == 0 && nextWriteOffset <= pageSize
      && writeBlockOffset % writeBlockSize == 0
      && (writeBlockDirty ==> writeBlockOffset < pageSize)
      && Sized(State())
    }

    ghost function StagedState(): Staged
      requires Shape()
      reads `writeBlockPage, `writeBlockOffset, `writeBlockEntries, `writeBlockDirty, writeBlockBuffer
    {
      Staged(writeBlockPage, writeBlockOffset / writeBlockSize, writeBlockEntries, writeBlockDirty,
             BlockOf(writeBlockBuffer[..writeBlockSize]))
    }

    /** The value-level store this object stands for. */
    ghost function State(): Store
      requires Shape()
      reads Repr()
    {
      Store(Geo(), hwa.Contents(), hwa.trace, cache[..], StagedState(), pageStatusCache,
            Cursor(nextWritePage, At(writeBlockSize, nextWriteOffset)), cacheDirty)
    }

    lemma GeoOfState()
      requires Shape()
      ensures State().g == Geo()
    {
    }

    /** What a scan needs to know of the fixed sizes. */
    lemma ReadsWork()
      requires Shape()
      ensures hwa.Ok() && hwa.pageSize == pageSize && hwa.writeBlock == writeBlockSize
      ensures 4 <= writeBlockSize <= INTERNAL_BLOCK_SIZE && writeBlockSize % 4 == 0
      ensures INTERNAL_BLOCK_SIZE % writeBlockSize == 0 && pageSize % INTERNAL_BLOCK_SIZE == 0
      ensures hwa.page1.Length == hwa.page2.Length == hwa.factory.Length == pageSize
    {
    }

    /** Any contents of the right lengths make a sized store. */
    lemma StateSized()
      requires Shape()
      requires nextWriteOffset % 4 == 0 && nextWriteOffset <= pageSize
      requires writeBlockDirty ==> writeBlockOffset < pageSize && writeBlockOffset % writeBlockSize == 0
      ensures Sized(State())
    {
      Sizes();
      AtSlot(writeBlockSize, nextWriteOffset);
      AtEnd(writeBlockSize, Geo().blocks, nextWriteOffset);
      ImageSized(Geo(), hwa.page1[..], writeBlockSize);
      ImageSized(Geo(), hwa.page2[..], writeBlockSize);
      ImageSized(Geo(), hwa.factory[..], writeBlockSize);
      if writeBlockDirty {
        AlignedBelow(writeBlockOffset, pageSize, writeBlockSize);
      }
    }

    /** The cached append position, in slots and in bytes. */
    lemma CursorFacts()
      requires Shape() && nextWriteOffset % 4 == 0
      ensures State().next.at == ORIGIN <==> nextWriteOffset == 0
      ensures State().next.at.block >= Geo().blocks <==> nextWriteOffset >= pageSize
      ensures State().next.at.entry < Geo().entries
    {
      Sizes();
      AtSlot(writeBlockSize, nextWriteOffset);
      AtEnd(writeBlockSize, Geo().blocks, nextWriteOffset);
    }

    /** A driver object as the public wrapper constructs it: zeroed RAM over some flash backend. */
    constructor (hwa: Hwa, pageSize: nat, writeBlockSize: nat, addresses: nat)
      requires hwa.Ok() && hwa.pageSize == pageSize && hwa.writeBlock == writeBlockSize
      requires StaticAsserts(pageSize, writeBlockSize, addresses)
      ensures Valid() && this.hwa == hwa && maxAddress == addresses
      ensures fresh(Repr() - {hwa, hwa.page1, hwa.page2, hwa.factory})
      ensures State() == Fresh(Geo(), hwa.Contents()).(trace := hwa.trace)
    {
      this.hwa := hwa;
      this.pageSize, this.writeBlockSize, maxAddress := pageSize, writeBlockSize, addresses;
      entriesPerBlock := writeBlockSize / SERIALIZED_ENTRY_SIZE;
      cache := new Word[addresses](_ => 0);
      writeBlockBuffer := new Byte[INTERNAL_BLOCK_SIZE](_ => 0);
      pageStatusCache := Statuses(Erased, Erased, Erased);
      nextWritePage, nextWriteOffset := Page1, 0;
      writeBlockPage, writeBlockOffset, writeBlockEntries, writeBlockDirty := Page1, 0, 0, false;
      cacheDirty := false;
      new;
      GeometryIsValid(pageSize, writeBlockSize, addresses);
      StateSized();
      assert cache[..] == seq(addresses, _ => 0);
      ZeroBytes(writeBlockBuffer[..writeBlockSize]);
    }

    // -------------------------------------------------------------- RAM bookkeeping

    method ClearWriteBlock()
      requires Valid()
      modifies this, writeBlockBuffer
      ensures Valid() && State() == ClearStaged(old(State()))
    {
      hide Sized, Hwa.Contents, BlockOf;
      FillBuffer();
      writeBlockPage := Page1;
      writeBlockOffset := 0;
      writeBlockEntries := 0;
      writeBlockDirty := false;
      StateSized();
    }

    /** `std::fill` of the staged block with erased bytes. */
    method FillBuffer()
      requires Shape()
      modifies writeBlockBuffer
      ensures BlockOf(writeBlockBuffer[..writeBlockSize]) == ErasedBlock(Geo())
    {
      var i := 0;
      while i < writeBlockBuffer.Length
        invariant 0 <= i <= writeBlockBuffer.Length
        invariant forall k :: 0 <= k < i ==> writeBlockBuffer[k] == ERASED_BYTE
      {
        writeBlockBuffer[i] := ERASED_BYTE;
        i := i + 1;
      }
      Sizes();
      ErasedBytes(writeBlockBuffer[..writeBlockSize]);
      assert IsErased(BlockOf(writeBlockBuffer[..writeBlockSize]));
    }

    /** `std::fill` of the RAM mirror. */
    method FillCache()
      requires Shape()
      modifies cache
      ensures cache[..] == EmptyMirror(Geo())
    {
      var i := 0;
      while i < cache.Length
        invariant 0 <= i <= cache.Length
        invariant forall k :: 0 <= k < i ==> cache[k] == ERASED_VALUE
      {
        cache[i] := ERASED_VALUE;
        i := i + 1;
      }
    }

    /** `find_valid_page`, for both kinds of operation. */
    method FindValidPage(write: bool) returns (page: Option<PageId>)
      requires Valid()
      ensures page == if write then FindWritePage(State()) else FindReadPage(State())
    {
      if write {
        if pageStatusCache.page2.Valid? {
          page := Some(if pageStatusCache.page1.Receiving? then Page1 else Page2);
        } else if pageStatusCache.page1.Valid? {
          page := Some(if pageStatusCache.page2.Receiving? then Page2 else Page1);
        } else {
          page := None;
        }
      } else {
        if pageStatusCache.page1.Valid? {
          page := Some(Page1);
        } else if pageStatusCache.page2.Valid? {
          page := Some(Page2);
        } else {
          page := None;
        }
      }
    }

    // -------------------------------------------------------------- scanning a page

    /**
     The scan shared by `find_next_free_offset` and `refresh_next_write_offset`: read blocks of 256
     bytes, each searched write block by write block; `pageSize` when nothing is erased.
     */
    method ScanForErased(page: PageId) returns (offset: nat)
      requires Valid()
      ensures offset == Times(FirstErased(hwa.PageImageOf(page)), writeBlockSize)
      ensures offset < pageSize <==> FirstErased(hwa.PageImageOf(page)) < Geo().blocks
    {
      hide State, Sized, Geometry.Valid, Aligned, Times, AllErased, IsErased, WrittenUpTo, Image;
      Sizes();
      ReadsWork();
      ghost var n := Geo().blocks;
      hide EmuEeprom.Valid, EmuEeprom.Shape, Hwa.Ok;
      var W := writeBlockSize;
      ghost var bytes := hwa.Bytes(page)[..];
      ghost var image := Image(bytes, W, n);
      ScanBegin(image);
      assert image == hwa.PageImageOf(page);
      ghost var b := 0;
      ScanStart(W);
      var readOffset := 0;
      while readOffset < pageSize
        invariant readOffset <= pageSize && readOffset % INTERNAL_BLOCK_SIZE == 0
        invariant readOffset == Times(b, W)
        invariant WrittenUpTo(image, b)
      {
        ReadFits(readOffset, pageSize);
        var buffer := hwa.Read(page, readOffset, INTERNAL_BLOCK_SIZE);
        var within := 0;
        while within < INTERNAL_BLOCK_SIZE
          invariant within <= INTERNAL_BLOCK_SIZE && Aligned(within, W)
          invariant readOffset + within == Times(b, W)
          invariant WrittenUpTo(image, b)
        {
          ScanOffsets(W, n, b, readOffset, within);
          ScanStep(bytes, W, n, b, readOffset, within);
          var block := buffer[within..within + W];
          if AllErased(block) {
            FirstErasedIs(image, b);
            return readOffset + within;
          }
          within := within + W;
          b := b + 1;
        }
        readOffset := readOffset + INTERNAL_BLOCK_SIZE;
      }
      PageEnd(b, n, W);
      FirstErasedIs(image, b);
      return pageSize;
    }

    static lemma ReadFits(offset: nat, size: nat)
      requires offset % INTERNAL_BLOCK_SIZE == 0 && size % INTERNAL_BLOCK_SIZE == 0 && offset < size
      ensures offset + INTERNAL_BLOCK_SIZE <= size && (offset + INTERNAL_BLOCK_SIZE) % INTERNAL_BLOCK_SIZE == 0
    {
    }

    static lemma ScanBegin(p: PageImage)
      ensures WrittenUpTo(p, 0)
    {
    }

    static lemma ScanStart(w: nat)
      requires w > 0
      ensures Times(0, w) == 0 && Aligned(0, w)
    {
    }

    static lemma PageEnd(b: nat, n: nat, w: nat)
      requires 1 <= w && Times(b, w) == n * w
      ensures b == n
    {
      MultipleOf(b, w);
      MultipleOf(n, w);
    }

    ghost static predicate WrittenUpTo(p: PageImage, b: nat) {
      b <= |p| && forall i :: 0 <= i < b ==> !IsErased(p[i])
    }

    /** One write block further in a scan: the offsets. */
    static lemma ScanOffsets(w: nat, n: nat, b: nat, readOffset: nat, within: nat)
      requires w >= 4 && INTERNAL_BLOCK_SIZE % w == 0
      requires Aligned(within, w) && within < INTERNAL_BLOCK_SIZE && readOffset + INTERNAL_BLOCK_SIZE <= n * w
      requires readOffset + within == Times(b, w)
      ensures within + w <= INTERNAL_BLOCK_SIZE && Aligned(within + w, w)
      ensures readOffset + within + w == Times(b + 1, w)
      ensures b < n && readOffset + within + w <= n * w
    {
      AlignedBelow(within, INTERNAL_BLOCK_SIZE, w);
      NextBlock(within, w);
      MultipleOf(b, w);
      ProductOrder(b, n, w);
      BlockFits(b, n, w);
      assert (b + 1) * w == b * w + w;
    }

    /** One write block further in a scan: what the bytes say. */
    static lemma ScanStep(bytes: seq<Byte>, w: nat, n: nat, b: nat, readOffset: nat, within: nat)
      requires w >= 4 && w % 4 == 0 && |bytes| == n * w && b < n
      requires within + w <= INTERNAL_BLOCK_SIZE && readOffset + INTERNAL_BLOCK_SIZE <= |bytes|
      requires readOffset + within == Times(b, w)
      ensures
        var block := bytes[readOffset..readOffset + INTERNAL_BLOCK_SIZE][within..within + w];
        && Image(bytes, w, n)[b] == BlockOf(block)
        && (AllErased(block) <==> IsErased(Image(bytes, w, n)[b]))
        && (WrittenUpTo(Image(bytes, w, n), b) && !AllErased(block) ==> WrittenUpTo(Image(bytes, w, n), b + 1))
    {
      hide Image, AllErased, IsErased;
      MultipleOf(b, w);
      SliceOfSlice(bytes, readOffset, INTERNAL_BLOCK_SIZE, within, w);
      BlockInImage(bytes, w, n, readOffset + within);
      ErasedBytes(bytes[readOffset + within..readOffset + within + w]);
    }

    static lemma FirstErasedIs(p: PageImage, u: nat)
      requires WrittenUpTo(p, u) && (u < |p| ==> IsErased(p[u]))
      ensures FirstErased(p) == u
    {
      var v := FirstErased(p);
      assert v == |p| || IsErased(p[v]);
      assert u == |p| || IsErased(p[u]);
    }

    method FindNextFreeOffset(page: PageId) returns (offset: Option<nat>)
      requires Valid()
      ensures
        var u := FirstErased(State().flash.Get(page));
        offset == if u < Geo().blocks then Some(u * writeBlockSize) else None
    {
      var at := ScanForErased(page);
      assert State().flash.Get(page) == hwa.PageImageOf(page);
      offset := if at < pageSize then Some(at) else None;
    }

    method RefreshNextWriteOffset(page: PageId)
      requires Valid()
      modifies this
      ensures Valid() && State() == RefreshNext(old(State()), page)
    {
      hide Sized, Geometry.Valid, Hwa.PageImageOf, BlockOf, Image, Times, At, EmuEeprom.StagedState, FirstErased;
      var at := ScanForErased(page);
      Sizes();
      ImageLength(page);
      AtBlock(writeBlockSize, FirstErased(hwa.PageImageOf(page)), Geo().blocks);
      assert State().flash.Get(page) == hwa.PageImageOf(page);
      nextWritePage, nextWriteOffset := page, at;
      StateSized();
    }

    lemma ImageLength(page: PageId)
      requires Shape()
      ensures |hwa.PageImageOf(page)| == Geo().blocks && FirstErased(hwa.PageImageOf(page)) <= Geo().blocks
    {
      hide Image;
      Sizes();
    }

    // -------------------------------------------------------------- the staged block

    method FlushWriteBlock()
      requires Valid()
      modifies Repr()
      ensures Valid() && State() == FlushBlock(old(State()))
      ensures cache[..] == old(cache[..])
    {
      hide Sized, Hwa.Contents, BlockOf, At, Image, Geometry.Valid;
      if !writeBlockDirty {
        return;
      }
      var W := writeBlockSize;
      Sizes();
      ReadsWork();
      FlushedCursor(W, Geo().blocks, writeBlockOffset, nextWriteOffset);
      hide EmuEeprom.Shape, Hwa.Ok;
      hwa.Write(writeBlockPage, writeBlockOffset, writeBlockBuffer[..W]);
      if nextWritePage == writeBlockPage && writeBlockOffset < nextWriteOffset < writeBlockOffset + W {
        nextWriteOffset := writeBlockOffset + W;
      }
      StateSized();
      ClearWriteBlock();
    }

    /** A cursor inside the block being flushed moves to its end. */
    static lemma FlushedCursor(w: nat, n: nat, blockOffset: nat, offset: nat)
      requires w >= 4 && w % 4 == 0 && offset % 4 == 0 && blockOffset % w == 0 && blockOffset < n * w
      ensures blockOffset < offset < blockOffset + w <==>
              At(w, offset).block == blockOffset / w && At(w, offset).entry > 0
      ensures At(w, blockOffset + w) == Position(blockOffset / w + 1, 0)
      ensures (blockOffset + w) % 4 == 0 && blockOffset + w <= n * w && blockOffset / w < n
    {
      hide At;
      if blockOffset < offset < blockOffset + w {
        InsideBlock(w, blockOffset, offset);
      } else {
        OutsideBlock(w, blockOffset, offset);
      }
      MultipleOf(n, w);
      AlignedBelow(blockOffset, n * w, w);
      NextBlock(blockOffset, w);
      ModTransitive(blockOffset + w, w, 4);
      AtAligned(w, blockOffset + w);
    }

    static lemma AtAligned(w: nat, x: nat)
      requires w >= 4 && x % w == 0
      ensures At(w, x) == Position(x / w, 0)
    {
    }

    static lemma InsideBlock(w: nat, blockOffset: nat, offset: nat)
      requires w >= 4 && w % 4 == 0 && offset % 4 == 0 && blockOffset % w == 0
      requires blockOffset < offset < blockOffset + w
      ensures At(w, offset).block == blockOffset / w && At(w, offset).entry > 0
    {
      assert blockOffset == (blockOffset / w) * w;
      DivModIs(offset, blockOffset / w, offset - blockOffset, w);
      AtSlot(w, offset);
    }

    static lemma OutsideBlock(w: nat, blockOffset: nat, offset: nat)
      requires w >= 4 && w % 4 == 0 && offset % 4 == 0 && blockOffset % w == 0
      requires !(blockOffset < offset < blockOffset + w)
      ensures !(At(w, offset).block == blockOffset / w && At(w, offset).entry > 0)
    {
      AtSlot(w, offset);
      assert blockOffset == (blockOffset / w) * w;
    }

    /** The start of the write block that a byte lies in. */
    static function BlockStart(w: nat, offset: nat): nat
      requires w > 0
    {
      (offset / w) * w
    }

    static lemma WholeBlocks(offset: nat, w: nat)
      requires w > 0 && offset % w == 0
      ensures BlockStart(w, offset) == offset
    {
    }

    /** `serialize_entry` into slot `n` of the staged block. */
    method SerializeEntry(e: Entry, n: nat)
      requires Shape() && n < entriesPerBlock
      modifies writeBlockBuffer
      ensures BlockOf(writeBlockBuffer[..writeBlockSize]) == old(BlockOf(writeBlockBuffer[..writeBlockSize]))[n := e]
    {
      hide BlockOf, Geometry.Valid, EncodeEntry, EncodeWord;
      ghost var before := writeBlockBuffer[..];
      SlotFits(n);
      hide EmuEeprom.Shape, Hwa.Ok;
      SerializeValue(e.value, writeBlockBuffer, 4 * n);
      ghost var middle := writeBlockBuffer[..];
      SerializeValue(e.address, writeBlockBuffer, 4 * n + 2);
      ghost var after := writeBlockBuffer[..];
      EntrySlot(before, middle, after, 4 * n, e);
      Prefix(before, after, 4 * n, writeBlockSize, EncodeEntry(e));
      SlotWritten(before[..writeBlockSize], after[..writeBlockSize], n, e);
      assert before[..writeBlockSize] == old(writeBlockBuffer[..writeBlockSize]);
    }

    lemma SlotFits(n: nat)
      requires Shape() && n < entriesPerBlock
      ensures 4 * n + 4 <= writeBlockSize <= writeBlockBuffer.Length == INTERNAL_BLOCK_SIZE && writeBlockSize % 4 == 0
    {
    }

    static lemma EntrySlot(before: seq<Byte>, middle: seq<Byte>, after: seq<Byte>, lo: nat, e: Entry)
      requires |before| == |middle| == |after| && lo + 4 <= |before|
      requires middle[lo..lo + 2] == EncodeWord(e.value)
      requires middle[..lo] == before[..lo] && middle[lo + 2..] == before[lo + 2..]
      requires after[lo + 2..lo + 4] == EncodeWord(e.address)
      requires after[..lo + 2] == middle[..lo + 2] && after[lo + 4..] == middle[lo + 4..]
      ensures after[lo..lo + 4] == EncodeEntry(e)
      ensures after[..lo] == before[..lo] && after[lo + 4..] == before[lo + 4..]
    {
      hide EncodeWord;
      assert after[lo..lo + 2] == after[..lo + 2][lo..] == middle[..lo + 2][lo..] == middle[lo..lo + 2];
      assert after[lo..lo + 4] == after[lo..lo + 2] + after[lo + 2..lo + 4];
      assert after[..lo] == after[..lo + 2][..lo];
      assert middle[lo + 4..] == middle[lo + 2..][2..];
      assert before[lo + 4..] == before[lo + 2..][2..];
    }

    static lemma Prefix(before: seq<Byte>, after: seq<Byte>, lo: nat, size: nat, data: seq<Byte>)
      requires |before| == |after| && lo + 4 <= size <= |before| && |data| == 4
      requires after[lo..lo + 4] == data && after[..lo] == before[..lo] && after[lo + 4..] == before[lo + 4..]
      ensures after[..size][lo..lo + 4] == data
      ensures after[..size][..lo] == before[..size][..lo]
      ensures after[..size][lo + 4..] == before[..size][lo + 4..]
    {
      assert after[..size][..lo] == after[..lo];
      assert before[..size][..lo] == before[..lo];
      assert after[..size][lo + 4..] == after[lo + 4..][..size - lo - 4];
      assert before[..size][lo + 4..] == before[lo + 4..][..size - lo - 4];
    }

    /** Opens the staged block `b` of `page`, flushing one that is open elsewhere. */
    /** A block opened for another place. */
    method ClaimBlock(page: PageId, blockOffset: nat, ghost b: nat)
      requires Valid() && !writeBlockDirty && b < Geo().blocks && blockOffset == b * writeBlockSize
      modifies this, writeBlockBuffer
      ensures Valid()
      ensures State() == old(State()).(staged := Staged(page, b, 0, true, ErasedBlock(Geo())))
    {
      hide Sized, Hwa.Contents, BlockOf, Geometry.Valid, Image, At, ErasedBlock, ErasedPage;
      Sizes();
      ReadsWork();
      RecordPlace(writeBlockSize, Geo().blocks, b);
      FillBuffer();
      hide EmuEeprom.Shape, Hwa.Ok;
      writeBlockPage := page;
      writeBlockOffset := blockOffset;
      writeBlockEntries := 0;
      writeBlockDirty := true;
      StateSized();
    }

    method OpenWriteBlock(page: PageId, blockOffset: nat, ghost b: nat)
      requires Valid() && b < Geo().blocks && blockOffset == b * writeBlockSize
      modifies Repr()
      ensures Valid()
      ensures State() == OpenBlock(old(State()), page, b)
      ensures cache[..] == old(cache[..])
    {
      hide Sized, Hwa.Contents, FlushBlock, BlockOf, Geometry.Valid, Image, At, ErasedBlock, ErasedPage;
      Sizes();
      ReadsWork();
      RecordPlace(writeBlockSize, Geo().blocks, b);
      hide EmuEeprom.Shape, Hwa.Ok;
      if writeBlockDirty {
        SameBlock(writeBlockOffset, blockOffset, writeBlockSize);
      }
      if writeBlockDirty && (writeBlockPage != page || writeBlockOffset != blockOffset) {
        FlushWriteBlock();
      }
      if !writeBlockDirty {
        ClaimBlock(page, blockOffset, b);
      }
    }

    static lemma SameBlock(x: nat, y: nat, w: nat)
      requires 1 <= w && x % w == 0 && y % w == 0
      ensures x / w == y / w <==> x == y
    {
      assert x == (x / w) * w && y == (y / w) * w;
    }

    /** An entry-aligned offset, as a block and a place in it. */
    static lemma EntryPlace(w: nat, n: nat, offset: nat)
      requires w >= 4 && w % 4 == 0 && offset % 4 == 0
      ensures
        var at := At(w, offset);
        var blockOffset := BlockStart(w, offset);
        var within := offset - blockOffset;
        && blockOffset <= offset && blockOffset == at.block * w && within % 4 == 0 && within + 4 <= w
        && at.entry == within / 4 && at.entry < w / 4
      ensures offset + 4 <= n * w <==> At(w, offset).block < n
    {
      AtSlot(w, offset);
      AtEnd(w, n, offset);
    }

    /** The same for this page size. */
    lemma PlaceOf(offset: nat)
      requires Shape() && offset % 4 == 0
      ensures writeBlockSize >= 4
      ensures
        var at := At(writeBlockSize, offset);
        var blockOffset := BlockStart(writeBlockSize, offset);
        && blockOffset <= offset && blockOffset == at.block * writeBlockSize
        && at.entry == (offset - blockOffset) / 4 && at.entry < Geo().entries
        && (offset + 4 <= pageSize <==> at.block < Geo().blocks)
    {
      hide At, BlockStart;
      Sizes();
      EntryPlace(writeBlockSize, Geo().blocks, offset);
    }

    method WriteEntry(page: PageId, offset: nat, e: Entry) returns (status: WriteStatus)
      requires Valid() && offset % 4 == 0
      modifies Repr()
      ensures Valid() && At(writeBlockSize, offset).entry < Geo().entries
      ensures (State(), status) == EmuModel.WriteEntry(old(State()), page, At(writeBlockSize, offset), e)
      ensures cache[..] == old(cache[..])
    {
      hide Sized, Hwa.Contents, FlushBlock, OpenBlock, Geometry.Valid, Image, At, BlockOf, BlockStart;
      PlaceOf(offset);
      hide EmuEeprom.Shape, Hwa.Ok;
      if offset + SERIALIZED_ENTRY_SIZE > pageSize {
        return PageFull;
      }
      var blockOffset := BlockStart(writeBlockSize, offset);
      var withinBlock := offset - blockOffset;
      // Entries are appended entry by entry, so one never straddles two write blocks.
      OpenWriteBlock(page, blockOffset, At(writeBlockSize, offset).block);
      SerializeEntry(e, withinBlock / SERIALIZED_ENTRY_SIZE);
      writeBlockEntries := writeBlockEntries + 1;
      StateSized();
      if writeBlockEntries >= entriesPerBlock {
        FlushWriteBlock();
      }
      return WriteOk;
    }

    /** The last lines of `write_page_status`: the cursor moves past the record, the status is cached. */
    method NoteStatus(page: PageId, offset: nat, status: PageStatus)
      requires Valid() && offset % writeBlockSize == 0 && offset < pageSize
      modifies this
      ensures Valid()
      ensures
        var s := old(State());
        var t := if s.next.page == page
                 then s.(next := Cursor(page, Position(offset / writeBlockSize + 1, 0))) else s;
        State() == SetStatus(t, page, status)
    {
      hide Sized, Hwa.Contents, BlockOf, Geometry.Valid, Image, At, EmuEeprom.StagedState;
      var W := writeBlockSize;
      Sizes();
      ReadsWork();
      FlushedCursor(W, Geo().blocks, offset, 0);
      WholeBlocks(offset, W);
      hide EmuEeprom.Shape, Hwa.Ok, BlockStart;
      if nextWritePage == page {
        var blockEnd := BlockStart(W, offset) + W;
        nextWriteOffset := if blockEnd < pageSize then blockEnd else pageSize;
      }
      pageStatusCache := pageStatusCache.With(page, status);
      StateSized();
    }

    static lemma RecordPlace(w: nat, n: nat, u: nat)
      requires w >= 4 && w % 4 == 0 && u < n
      ensures (u * w) % 4 == 0 && (u * w) % w == 0 && (u * w) / w == u && u * w < n * w
      ensures At(w, u * w) == Position(u, 0)
    {
      MultipleOf(u, w);
      BlockFits(u, n, w);
      ModTransitive(u * w, w, 4);
    }

    method WritePageStatus(page: PageId, status: PageStatus) returns (ok: bool)
      requires Valid()
      modifies Repr()
      ensures Valid()
      ensures
        var r := EmuModel.WritePageStatus(old(State()), page, status);
        && ok == r.Some?
        && State() == (if ok then r.value else FlushBlock(old(State())))
      ensures cache[..] == old(cache[..])
    {
      hide Sized, Hwa.Contents, BlockOf, FlushBlock, EmuModel.WriteEntry, Geometry.Valid, At, FirstErased, State;
      GeoOfState();
      FlushWriteBlock();
      GeoOfState();
      var offset := FindNextFreeOffset(page);
      if offset.None? {
        return false;
      }
      ghost var u := FirstErased(State().flash.Get(page));
      Sizes();
      RecordPlace(writeBlockSize, Geo().blocks, u);
      var written := WriteEntry(page, offset.value, StatusEntry(status));
      assert written == WriteOk;
      FlushWriteBlock();
      NoteStatus(page, offset.value, status);
      return true;
    }

    // -------------------------------------------------------------- status look-up

    static lemma PreviousSlot(g: Geometry, w: nat, offset: nat)
      requires w == 4 * g.entries && w >= 4 && offset % 4 == 0
      ensures At(w, offset + 4) != ORIGIN && At(w, offset).entry < g.entries
      ensures Previous(g, At(w, offset + 4)) == At(w, offset)
    {
      AtNext(g, w, offset);
      AtSlot(w, offset);
    }

    /** The slot at byte `offset`, and the position just after it. */
    static lemma SlotFacts(g: Geometry, bytes: seq<Byte>, w: nat, offset: nat)
      requires w == 4 * g.entries && w >= 4 && |bytes| == g.blocks * w
      requires offset % 4 == 0 && offset + 4 <= |bytes|
      ensures
        var p := Image(bytes, w, g.blocks);
        var at := At(w, offset);
        && SizedPage(g, p)
        && at.block < g.blocks && at.entry < g.entries
        && p[at.block][at.entry] == DecodeEntry(bytes[offset..offset + 4])
        && InPage(p, at) && InPage(p, At(w, offset + 4))
        && Previous(g, At(w, offset + 4)) == at && At(w, offset + 4) != ORIGIN
        && At(w, offset + 4).block <= g.blocks && At(w, offset + 4).entry < g.entries
        && (At(w, offset + 4).block == g.blocks ==> At(w, offset + 4).entry == 0)
    {
      hide Image, DecodeEntry, At, Previous, Advance;
      ImageSized(g, bytes, w);
      SlotInImage(bytes, w, g.blocks, offset);
      PreviousSlot(g, w, offset);
      AtNext(g, w, offset);
      AdvanceStays(g, At(w, offset));
    }

    static lemma AdvanceStays(g: Geometry, at: Position)
      requires at.block < g.blocks && at.entry < g.entries
      ensures
        var next := Advance(g, at);
        next.block <= g.blocks && next.entry < g.entries && (next.block == g.blocks ==> next.entry == 0)
    {
    }

    /** One step of a backward scan, at byte `offset` of the page. */
    static lemma ScanBackStep(g: Geometry, bytes: seq<Byte>, w: nat, offset: nat)
      requires w == 4 * g.entries && w >= 4 && |bytes| == g.blocks * w
      requires offset % 4 == 0 && offset + 4 <= |bytes|
      ensures
        var p := Image(bytes, w, g.blocks);
        var e := DecodeEntry(bytes[offset..offset + 4]);
        && InPage(p, At(w, offset)) && InPage(p, At(w, offset + 4))
        && StatusBefore(p, At(w, offset + 4)) ==
           (if EntryStatus(e).Some? then EntryStatus(e).value else StatusBefore(p, At(w, offset)))
    {
      hide Image, DecodeEntry, At, Previous, StatusBefore;
      SlotFacts(g, bytes, w, offset);
      StatusStep(g, Image(bytes, w, g.blocks), At(w, offset + 4));
    }

    /** What the entries of one read block need to be scanned: sizes and alignment, folded. */
    ghost static predicate StepsBack(g: Geometry, bytes: seq<Byte>, w: nat, lo: nat) {
      w == 4 * g.entries && w >= 4 && |bytes| == g.blocks * w && lo % 4 == 0 && lo + INTERNAL_BLOCK_SIZE <= |bytes|
    }

    static lemma StepBegins(g: Geometry, bytes: seq<Byte>, w: nat, lo: nat, from: nat)
      requires w == 4 * g.entries && w >= 4 && |bytes| == g.blocks * w && lo + INTERNAL_BLOCK_SIZE <= |bytes|
      requires lo % 4 == 0 && from % 4 == 0
      ensures StepsBack(g, bytes, w, lo) && Aligned(from, 4)
    {
    }

    static lemma StepWithin(g: Geometry, bytes: seq<Byte>, w: nat, lo: nat, within: nat)
      requires StepsBack(g, bytes, w, lo) && Aligned(within, 4) && within < INTERNAL_BLOCK_SIZE
      ensures within + 4 <= INTERNAL_BLOCK_SIZE && (within >= 4 ==> Aligned(within - 4, 4)) &&
        (within < 4 ==> within == 0)
      ensures lo + INTERNAL_BLOCK_SIZE <= |bytes| && |bytes| == g.blocks * w
      ensures
        var p := Image(bytes, w, g.blocks);
        var e := DecodeEntry(bytes[lo..lo + INTERNAL_BLOCK_SIZE][within..within + 4]);
        && InPage(p, At(w, lo + within)) && InPage(p, At(w, lo + within + 4))
        && StatusBefore(p, At(w, lo + within + 4)) ==
           (if EntryStatus(e).Some? then EntryStatus(e).value else StatusBefore(p, At(w, lo + within)))
    {
      hide Image, DecodeEntry, At, StatusBefore, InPage;
      WithinFits(within);
      SliceOfSlice(bytes, lo, INTERNAL_BLOCK_SIZE, within, 4);
      SumAligned(lo, within);
      ScanBackStep(g, bytes, w, lo + within);
    }

    static lemma WithinFits(within: nat)
      requires within % 4 == 0 && within < INTERNAL_BLOCK_SIZE
      ensures within + 4 <= INTERNAL_BLOCK_SIZE && (within >= 4 ==> (within - 4) % 4 == 0) &&
        (within < 4 ==> within == 0)
    {
    }

    /** The inner loop: entries of one read block, from byte `within` backwards. */
    method StatusInReadBlock(ghost p: PageImage, ghost bytes: seq<Byte>, buffer: seq<Byte>, lo: nat, from: nat)
      returns (found: Option<PageStatus>)
      requires Shape() && |bytes| == pageSize && |bytes| == Geo().blocks * writeBlockSize
      requires p == Image(bytes, writeBlockSize, Geo().blocks)
      requires lo % 4 == 0 && from % 4 == 0 && from < INTERNAL_BLOCK_SIZE && lo + INTERNAL_BLOCK_SIZE <= pageSize
      requires buffer == bytes[lo..lo + INTERNAL_BLOCK_SIZE]
      requires InPage(p, At(writeBlockSize, lo + from + 4))
      ensures InPage(p, At(writeBlockSize, lo))
      ensures StatusBefore(p, At(writeBlockSize, lo + from + 4)) ==
              if found.Some? then found.value else StatusBefore(p, At(writeBlockSize, lo))
    {
      hide State, Sized, Geometry.Valid, Image, StatusBefore, DecodeEntry, InPage, At, Aligned, StepsBack;
      Sizes();
      ReadsWork();
      ghost var g := Geo();
      ghost var w := writeBlockSize;
      SlotInPage(g, bytes, w, lo);
      StepBegins(g, bytes, w, lo, from);
      hide EmuEeprom.Shape, Hwa.Ok;
      ghost var target := StatusBefore(p, At(w, lo + from + 4));
      var within: nat := from;
      while true
        invariant StepsBack(g, bytes, w, lo) && Aligned(within, 4) && within < INTERNAL_BLOCK_SIZE
        invariant InPage(p, At(w, lo + within + 4)) && StatusBefore(p, At(w, lo + within + 4)) == target
        decreases within
      {
        StepWithin(g, bytes, w, lo, within);
        var e := ReadSlot(buffer[within..within + 4]);
        if e.address == RESERVED_STATUS_ADDRESS {
          found := DeserializePageStatus(e.value);
          if found.Some? {
            return;
          }
        }
        if within < SERIALIZED_ENTRY_SIZE {
          return None;
        }
        within := within - SERIALIZED_ENTRY_SIZE;
      }
    }

    /** Read blocks of 256 bytes, newest first, each searched entry by entry from its end. */
    method LastStatusUpTo(page: PageId, from: nat) returns (status: PageStatus)
      requires Valid() && from % 4 == 0 && from + 4 <= pageSize
      ensures InPage(hwa.PageImageOf(page), At(writeBlockSize, from + 4))
      ensures status == StatusBefore(hwa.PageImageOf(page), At(writeBlockSize, from + 4))
    {
      hide State, Sized, Geometry.Valid, Image, StatusBefore, InPage, At;
      Sizes();
      ReadsWork();
      ghost var bytes := hwa.Bytes(page)[..];
      ghost var p := hwa.PageImageOf(page);
      var w := writeBlockSize;
      ScanBackStep(Geo(), bytes, w, from);
      ghost var target := StatusBefore(p, At(w, from + 4));
      var offset: nat := from;
      while true
        invariant offset % 4 == 0 && offset + 4 <= pageSize
        invariant InPage(p, At(w, offset + 4)) && StatusBefore(p, At(w, offset + 4)) == target
        decreases offset
      {
        ReadBlock(offset, pageSize);
        var lo: nat := (offset / INTERNAL_BLOCK_SIZE) * INTERNAL_BLOCK_SIZE;
        var buffer := hwa.Read(page, lo, INTERNAL_BLOCK_SIZE);
        var found := StatusInReadBlock(p, bytes, buffer, lo, offset - lo);
        if found.Some? {
          return found.value;
        }
        if lo == 0 {
          break;
        }
        LastSlot(lo);
        offset := lo - SERIALIZED_ENTRY_SIZE;
      }
      NothingBefore(w, p);
      return Erased;
    }

    /** The 256-byte read block an offset lies in. */
    static lemma ReadBlock(offset: nat, size: nat)
      requires offset % 4 == 0 && offset + 4 <= size && size % INTERNAL_BLOCK_SIZE == 0
      ensures
        var lo := (offset / INTERNAL_BLOCK_SIZE) * INTERNAL_BLOCK_SIZE;
        && 0 <= lo <= offset < lo + INTERNAL_BLOCK_SIZE <= size
        && lo % 4 == 0 && (offset - lo) % 4 == 0
    {
    }

    static lemma SlotInPage(g: Geometry, bytes: seq<Byte>, w: nat, offset: nat)
      requires w == 4 * g.entries && w >= 4 && |bytes| == g.blocks * w
      requires offset % 4 == 0 && offset + 4 <= |bytes|
      ensures InPage(Image(bytes, w, g.blocks), At(w, offset))
    {
      ScanBackStep(g, bytes, w, offset);
    }

    static lemma NothingBefore(w: nat, p: PageImage)
      requires w >= 4
      ensures At(w, 0) == ORIGIN && InPage(p, ORIGIN) && StatusBefore(p, ORIGIN) == Erased
    {
    }

    /** `deserialize_entry`. */
    method ReadSlot(data: seq<Byte>) returns (e: Entry)
      requires |data| == 4
      ensures e == DecodeEntry(data)
    {
      var value := DeserializeValue(data[0..2]);
      var address := DeserializeValue(data[2..4]);
      e := Entry(address, value);
    }

    /** The end of a page, as a byte offset and as a slot. */
    lemma PageEndFacts()
      requires Shape()
      ensures pageSize % 4 == 0 && pageSize >= 4 && (pageSize - 4) % 4 == 0
      ensures At(writeBlockSize, pageSize) == Position(Geo().blocks, 0)
    {
      Sizes();
      AtEnd(writeBlockSize, Geo().blocks, pageSize);
    }

    static lemma SumAligned(a: nat, b: nat)
      requires a % 4 == 0 && b % 4 == 0
      ensures (a + b) % 4 == 0
    {
    }

    static lemma LastSlot(offset: nat)
      requires offset % 4 == 0 && offset > 0
      ensures offset >= 4 && (offset - 4) % 4 == 0
    {
    }

    /** Where the look-up starts: at the cached append position of the page being written, else at the page end. */
    method StatusScanStart(page: PageId) returns (offset: nat)
      requires Valid()
      modifies this
      ensures Valid() && offset % 4 == 0 && offset + 4 <= pageSize
      ensures
        var s := old(State());
        if FindWritePage(s) == Some(page) then
          var s1 := if s.next.page != page || s.next.at == ORIGIN then RefreshNext(s, page) else s;
          && State() == s1
          && At(writeBlockSize, offset + 4) ==
             (if s1.next.at != ORIGIN && s1.next.at.block < Geo().blocks then s1.next.at else Position(Geo().blocks, 0))
        else State() == s && At(writeBlockSize, offset + 4) == Position(Geo().blocks, 0)
    {
      hide Sized, Geometry.Valid, Image, RefreshNext;
      PageEndFacts();
      CursorFacts();
      offset := pageSize - SERIALIZED_ENTRY_SIZE;
      var writePage := FindValidPage(true);
      if writePage == Some(page) {
        if nextWritePage != page || nextWriteOffset == 0 {
          RefreshNextWriteOffset(page);
        }
        CursorFacts();
        if nextWriteOffset > 0 {
          LastSlot(nextWriteOffset);
          offset := (if nextWriteOffset < pageSize then nextWriteOffset else pageSize) - SERIALIZED_ENTRY_SIZE;
        }
      }
    }

    method RefreshPageStatus(page: PageId)
      requires Valid()
      modifies this
      ensures Valid() && State() == EmuModel.RefreshPageStatus(old(State()), page)
    {
      hide Sized, Geometry.Valid, Image, StatusBefore, LastStatus, InPage, At;
      var offset := StatusScanStart(page);
      var status := LastStatusUpTo(page, offset);
      EndOfPage(hwa.PageImageOf(page));
      pageStatusCache := pageStatusCache.With(page, status);
      StateSized();
    }

    static lemma EndOfPage(p: PageImage)
      ensures StatusBefore(p, Position(|p|, 0)) == LastStatus(p)
    {
      assert p[..|p|] == p;
    }

    // -------------------------------------------------------------- writing

    /** Uses the cached append position of the page being written, or finds it by a scan. */
    method Locate(page: PageId)
      requires Valid()
      modifies this
      ensures Valid() && State() == Located(old(State()), page)
    {
      hide Sized, Geometry.Valid, Hwa.Contents, BlockOf, RefreshNext, At, EmuEeprom.StagedState;
      CursorFacts();
      if !(nextWritePage == page && nextWriteOffset != 0) {
        RefreshNextWriteOffset(page);
      }
    }

    /** The entry is in the log: the cursor and the mirror follow. */
    method NoteEntry(page: PageId, e: Entry, offset: nat)
      requires Valid() && e.address < maxAddress && offset % 4 == 0 && offset < pageSize
      modifies this, cache
      ensures Valid()
      ensures
        var s := old(State());
        State() == s.(next := Cursor(page, Advance(Geo(), At(writeBlockSize, offset))),
                      cache := s.cache[e.address := e.value])
    {
      hide Sized, Geometry.Valid, Hwa.Contents, BlockOf, At, EmuEeprom.StagedState, Advance;
      Sizes();
      EntryFits(offset, pageSize);
      AtNext(Geo(), writeBlockSize, offset);
      nextWritePage, nextWriteOffset := page, offset + SERIALIZED_ENTRY_SIZE;
      cache[e.address] := e.value;
      StateSized();
    }

    method WriteInternal(e: Entry, cacheOnly: bool) returns (status: WriteStatus)
      requires Valid()
      modifies Repr()
      ensures Valid() && (State(), status) == EmuModel.WriteInternal(old(State()), e, cacheOnly)
    {
      hide Sized, Geometry.Valid, Hwa.Contents, BlockOf, Located, EmuModel.WriteEntry, At, EmuEeprom.StagedState,
           Advance;
      if e.address == RESERVED_STATUS_ADDRESS || e.address >= maxAddress {
        return WriteError;
      }
      if cacheOnly {
        cache[e.address] := e.value;
        cacheDirty := true;
        StateSized();
        return WriteOk;
      }
      var page := FindValidPage(true);
      if page.None? {
        return NoPage;
      }
      Locate(page.value);
      CursorFacts();
      if nextWriteOffset >= pageSize {
        return PageFull;
      }
      var writeOffset := nextWriteOffset;
      status := WriteEntry(page.value, writeOffset, e);
      assert status == WriteOk;
      NoteEntry(page.value, e, writeOffset);
    }

    static lemma EntryFits(offset: nat, size: nat)
      requires offset % 4 == 0 && size % 4 == 0 && offset < size
      ensures offset + 4 <= size && (offset + 4) % 4 == 0
    {
    }

    /** The loop of `page_transfer`: a straight dump of the mirror into the page being received. */
    method DumpMirror() returns (status: WriteStatus)
      requires Valid()
      modifies Repr()
      ensures Valid() && (State(), status) == Dump(old(State()), 0)
    {
      hide Sized, Geometry.Valid, Hwa.Contents, BlockOf, At, EmuModel.WriteInternal;
      Sizes();
      var address: nat := 0;
      while address < maxAddress
        invariant Valid() && address <= maxAddress
        invariant Dump(State(), address) == Dump(old(State()), 0)
        modifies Repr()
      {
        if cache[address] != ERASED_VALUE {
          status := WriteInternal(Entry(address, cache[address]), false);
          if status != WriteOk {
            return;
          }
        }
        address := address + 1;
      }
      return WriteOk;
    }

    method ErasePage(page: PageId)
      requires Valid()
      modifies Repr()
      ensures Valid() && State() == EmuModel.ErasePage(old(State()), page)
    {
      hide Sized, Geometry.Valid, BlockOf, At;
      Sizes();
      hwa.ErasePage(page, Geo());
      StateSized();
    }

    static lemma AtOrigin(w: nat)
      requires w >= 4
      ensures At(w, 0) == ORIGIN
    {
    }

    /** The entries of one write block, taken into the mirror until one is not loadable. */
    method LoadWriteBlock(block: seq<Byte>) returns (ok: bool)
      requires Shape() && |block| == writeBlockSize
      modifies cache
      ensures (cache[..], ok) == LoadBlock(Geo(), old(cache[..]), BlockOf(block))
    {
      hide State, Sized, Geometry.Valid, DecodeEntry;
      ghost var b := BlockOf(block);
      var entry: nat := 0;
      while entry < entriesPerBlock
        invariant entry <= entriesPerBlock
        invariant (cache[..], true) == LoadBlock(Geo(), old(cache[..]), b[..entry])
      {
        ghost var es := b[..entry + 1];
        assert es[..entry] == b[..entry] && es[entry] == b[entry];
        var entryData := block[4 * entry..4 * entry + 4];
        assert SlotOf(block, entry) == DecodeEntry(entryData);
        ErasedSlot(entryData);
        if !AllErased(entryData) {
          var decoded := ReadSlot(entryData);
          if decoded.address != RESERVED_STATUS_ADDRESS {
            if decoded.address >= maxAddress {
              LoadBlockFails(Geo(), old(cache[..]), b, entry + 1);
              return false;
            }
            cache[decoded.address] := decoded.value;
          }
        }
        entry := entry + 1;
      }
      assert b[..entriesPerBlock] == b;
      return true;
    }

    static lemma {:induction false} LoadBlockFails(g: Geometry, c: Mirror, b: Block, k: nat)
      requires k <= |b| && !LoadBlock(g, c, b[..k]).1
      ensures LoadBlock(g, c, b) == LoadBlock(g, c, b[..k])
      decreases |b|
    {
      if k < |b| {
        var rest := b[..|b| - 1];
        assert rest[..k] == b[..k];
        LoadBlockFails(g, c, rest, k);
      } else {
        assert b[..k] == b;
      }
    }

    static lemma {:induction false} LoadBlocksFail(g: Geometry, p: PageImage, k: nat, u: nat)
      requires k <= u <= |p| && !LoadBlocks(g, p[..k]).ok
      ensures LoadBlocks(g, p[..u]) == LoadBlocks(g, p[..k])
      decreases u
    {
      if k < u {
        assert p[..u][..u - 1] == p[..u - 1];
        LoadBlocksFail(g, p, k, u - 1);
      }
    }

    /** The first `b` blocks of a page are written, load, and give the mirror `c`. */
    ghost static predicate LoadedTo(g: Geometry, p: PageImage, b: nat, c: Mirror) {
      WrittenUpTo(p, b) && LoadBlocks(g, p[..b]) == Loaded(c, b, true)
    }

    static lemma LoadBegins(g: Geometry, p: PageImage)
      ensures LoadedTo(g, p, 0, EmptyMirror(g))
    {
    }

    /** Loading one more block of a page. */
    static lemma LoadNext(g: Geometry, p: PageImage, b: nat, c: Mirror, d: Mirror, ok: bool)
      requires b < |p| && LoadedTo(g, p, b, c) && !IsErased(p[b]) && LoadBlock(g, c, p[b]) == (d, ok)
      ensures LoadBlocks(g, p[..b + 1]) == Loaded(d, b + 1, ok)
      ensures ok ==> LoadedTo(g, p, b + 1, d)
    {
      assert p[..b + 1][..b] == p[..b];
    }

    /** A block that does not load ends the loading of the page. */
    static lemma LoadStops(g: Geometry, p: PageImage, b: nat, c: Mirror, d: Mirror)
      requires b < |p| && LoadedTo(g, p, b, c) && !IsErased(p[b]) && LoadBlock(g, c, p[b]) == (d, false)
      ensures LoadBlocks(g, p[..FirstErased(p)]) == Loaded(d, b + 1, false)
    {
      LoadNext(g, p, b, c, d, false);
      LoadBlocksFail(g, p, b + 1, FirstErased(p));
    }

    /** The first erased block ends it too. */
    static lemma LoadEnds(g: Geometry, p: PageImage, b: nat, c: Mirror)
      requires LoadedTo(g, p, b, c) && (b < |p| ==> IsErased(p[b]))
      ensures LoadBlocks(g, p[..FirstErased(p)]) == Loaded(c, b, true)
    {
      FirstErasedIs(p, b);
    }


    /** The nested loops of `cache()`: block by block, up to the first erased one. */
    method LoadPage(page: PageId) returns (ok: bool)
      requires Shape() && cache[..] == EmptyMirror(Geo())
      modifies this`nextWritePage, this`nextWriteOffset, cache
      ensures
        var p := hwa.PageImageOf(page);
        var loaded := LoadBlocks(Geo(), p[..FirstErased(p)]);
        && loaded.cache == cache[..] && loaded.ok == ok
        && nextWritePage == page && nextWriteOffset == Times(loaded.blocks, writeBlockSize)
    {
      hide State, Sized, Geometry.Valid, Image, LoadBlocks, LoadBlock, Aligned, Times, AllErased, IsErased, WrittenUpTo,
           BlockOf, FirstErased, EmptyMirror, LoadedTo;
      Sizes();
      ReadsWork();
      ghost var g := Geo();
      ghost var n := g.blocks;
      hide EmuEeprom.Shape, Hwa.Ok;
      var W := writeBlockSize;
      ghost var bytes := hwa.Bytes(page)[..];
      ghost var image := Image(bytes, W, n);
      assert image == hwa.PageImageOf(page);
      LoadBegins(g, image);
      ghost var b := 0;
      ScanStart(W);
      var readOffset: nat := 0;
      while readOffset < pageSize
        invariant readOffset <= pageSize && readOffset % INTERNAL_BLOCK_SIZE == 0
        invariant readOffset == Times(b, W)
        invariant LoadedTo(g, image, b, cache[..])
        invariant readOffset > 0 ==> nextWritePage == page && nextWriteOffset == readOffset
      {
        ReadFits(readOffset, pageSize);
        var buffer := hwa.Read(page, readOffset, INTERNAL_BLOCK_SIZE);
        var within: nat := 0;
        while within < INTERNAL_BLOCK_SIZE
          invariant within <= INTERNAL_BLOCK_SIZE && Aligned(within, W)
          invariant readOffset + within == Times(b, W)
          invariant LoadedTo(g, image, b, cache[..])
          invariant readOffset + within > 0 ==> nextWritePage == page && nextWriteOffset == readOffset + within
        {
          ScanOffsets(W, n, b, readOffset, within);
          ScanStep(bytes, W, n, b, readOffset, within);
          var block := buffer[within..within + W];
          if AllErased(block) {
            LoadEnds(g, image, b, cache[..]);
            nextWritePage, nextWriteOffset := page, readOffset + within;
            return true;
          }
          nextWritePage, nextWriteOffset := page, readOffset + within + W;
          ghost var before := cache[..];
          ok := LoadWriteBlock(block);
          if !ok {
            LoadStops(g, image, b, before, cache[..]);
            return false;
          }
          LoadNext(g, image, b, before, cache[..], true);
          within := within + W;
          b := b + 1;
        }
        readOffset := readOffset + INTERNAL_BLOCK_SIZE;
      }
      PageEnd(b, n, W);
      LoadEnds(g, image, b, cache[..]);
      return true;
    }

    method Cache() returns (ok: bool)
      requires Valid()
      modifies Repr()
      ensures Valid() && (State(), ok) == EmuModel.Cache(old(State()))
    {
      hide Sized, Geometry.Valid, BlockOf, At, Image, LoadBlocks, Times;
      ClearWriteBlock();
      FillCache();
      nextWritePage, nextWriteOffset := Page1, 0;
      cacheDirty := false;
      AtOrigin(writeBlockSize);
      StateSized();
      var page := FindValidPage(false);
      if page.None? {
        return false;
      }
      ghost var image := hwa.PageImageOf(page.value);
      ok := LoadPage(page.value);
      AtBlock(writeBlockSize, LoadBlocks(Geo(), image[..FirstErased(image)]).blocks, Geo().blocks);
      Sizes();
      StateSized();
    }

    static lemma AtBlock(w: nat, b: nat, n: nat)
      requires w >= 4 && w % 4 == 0 && b <= n
      ensures At(w, Times(b, w)) == Position(b, 0) && Times(b, w) % 4 == 0 && Times(b, w) <= n * w
    {
      MultipleOf(b, w);
      ModTransitive(Times(b, w), w, 4);
      ProductMonotone(b, n, w);
    }

    // -------------------------------------------------------------- page transfer

    method SetNext(page: PageId)
      requires Valid()
      modifies this
      ensures Valid() && State() == old(State()).(next := Cursor(page, ORIGIN))
    {
      hide Sized, Geometry.Valid, Hwa.Contents, BlockOf, At, EmuEeprom.StagedState;
      AtOrigin(writeBlockSize);
      nextWritePage, nextWriteOffset := page, 0;
      StateSized();
    }

    method SetDirty(dirty: bool)
      requires Valid()
      modifies this
      ensures Valid() && State() == old(State()).(cacheDirty := dirty)
    {
      hide Sized, Geometry.Valid, Hwa.Contents, BlockOf, At, EmuEeprom.StagedState;
      cacheDirty := dirty;
      StateSized();
    }

    method PageTransfer() returns (status: WriteStatus)
      requires Valid()
      modifies Repr()
      ensures Valid() && (State(), status) == EmuModel.PageTransfer(old(State()))
    {
      hide State, Sized, EmuEeprom.Shape, FlushBlock, EmuModel.WritePageStatus, Dump, EmuModel.Cache,
           EmuModel.ErasePage;
      FlushWriteBlock();
      var oldPage := FindValidPage(false);
      if oldPage.None? {
        return NoPage;
      }
      var newPage := Other(oldPage.value);
      var ok := WritePageStatus(newPage, Receiving);
      if !ok {
        return WriteError;
      }
      SetNext(newPage);
      status := DumpMirror();
      if status != WriteOk {
        return;
      }
      FlushWriteBlock();
      ErasePage(oldPage.value);
      ok := WritePageStatus(oldPage.value, Formatted);
      if !ok {
        return WriteError;
      }
      ok := WritePageStatus(newPage, PageStatus.Valid);
      if !ok {
        return WriteError;
      }
      ok := Cache();
      if !ok {
        return WriteError;
      }
      SetDirty(false);
      return WriteOk;
    }

    method Write(e: Entry, cacheOnly: bool) returns (status: WriteStatus)
      requires Valid()
      modifies Repr()
      ensures Valid() && (State(), status) == EmuModel.Write(old(State()), e, cacheOnly)
    {
      hide Sized, EmuModel.WriteInternal, EmuModel.PageTransfer, BlockOf, At, Hwa.Contents, EmuEeprom.StagedState;
      if e.address == RESERVED_STATUS_ADDRESS || e.address >= maxAddress {
        return WriteError;
      }
      status := WriteInternal(e, cacheOnly);
      if status == PageFull {
        status := PageTransfer();
        if status == WriteOk {
          status := WriteInternal(e, false);
        }
      }
    }

    method Flush() returns (ok: bool)
      requires Valid()
      modifies Repr()
      ensures Valid() && (State(), ok) == EmuModel.Flush(old(State()))
    {
      hide Sized, EmuModel.PageTransfer, FlushBlock, BlockOf, At, Hwa.Contents, EmuEeprom.StagedState;
      if cacheDirty {
        var status := PageTransfer();
        if status != WriteOk {
          return false;
        }
      }
      FlushWriteBlock();
      return true;
    }

    // -------------------------------------------------------------- reading

    /** `read_entry` and the loop of `read` around it: entry by entry, newest first. */
    method ScanForAddress(page: PageId, from: nat, address: nat) returns (value: Option<Word>)
      requires Valid() && from % 4 == 0 && from + 4 <= pageSize
      ensures IsSlot(hwa.PageImageOf(page), At(writeBlockSize, from))
      ensures value == FindBackward(hwa.PageImageOf(page), At(writeBlockSize, from), address)
    {
      hide State, Sized, Geometry.Valid, Image, DecodeEntry, At, Previous, FindBackward, IsSlot;
      Sizes();
      ReadsWork();
      ghost var g := Geo();
      var w := writeBlockSize;
      ghost var bytes := hwa.Bytes(page)[..];
      ghost var p := hwa.PageImageOf(page);
      BackwardStep(g, bytes, w, from, address);
      ghost var target := FindBackward(p, At(w, from), address);
      var offset: nat := from;
      while true
        invariant offset % 4 == 0 && offset + 4 <= pageSize
        invariant IsSlot(p, At(w, offset)) && FindBackward(p, At(w, offset), address) == target
        decreases offset
      {
        BackwardStep(g, bytes, w, offset, address);
        var e := ReadEntry(page, offset);
        if e.address == address {
          return Some(e.value);
        }
        if offset < SERIALIZED_ENTRY_SIZE {
          return None;
        }
        LastSlot(offset);
        offset := offset - SERIALIZED_ENTRY_SIZE;
      }
    }

    /** One step of the scan: the entry answers, or the answer is that of the slot before. */
    static lemma BackwardStep(g: Geometry, bytes: seq<Byte>, w: nat, offset: nat, address: nat)
      requires w == 4 * g.entries && w >= 4 && |bytes| == g.blocks * w
      requires offset % 4 == 0 && offset + 4 <= |bytes|
      ensures
        var p := Image(bytes, w, g.blocks);
        var e := DecodeEntry(bytes[offset..offset + 4]);
        && IsSlot(p, At(w, offset))
        && (offset > 0 ==> offset >= 4 && IsSlot(p, At(w, offset - 4)))
        && FindBackward(p, At(w, offset), address) ==
           (if e.address == address then Some(e.value)
            else if offset == 0 then None
            else FindBackward(p, At(w, offset - 4), address))
    {
      hide Image, DecodeEntry, At;
      SlotFacts(g, bytes, w, offset);
      if offset > 0 {
        LastSlot(offset);
        SlotFacts(g, bytes, w, offset - 4);
      } else {
        AtOrigin(w);
      }
    }

    static lemma EntryInPage(w: nat, n: nat, offset: nat, size: nat)
      requires w >= 4 && w % 4 == 0 && offset % 4 == 0 && offset + 4 <= size && size == n * w
      ensures
        var blockOffset := BlockStart(w, offset);
        && blockOffset <= offset && offset - blockOffset + 4 <= w && blockOffset + w <= size
    {
      EntryPlace(w, n, offset);
      BlockFits(offset / w, n, w);
    }

    /** `read_entry`: the write block the entry lies in is read, and the entry decoded from it. */
    method ReadEntry(page: PageId, offset: nat) returns (e: Entry)
      requires Shape() && offset % 4 == 0 && offset + 4 <= pageSize
      ensures e == DecodeEntry(hwa.Bytes(page)[..][offset..offset + 4])
    {
      hide Geometry.Valid, DecodeEntry, At, BlockStart;
      var W := writeBlockSize;
      Sizes();
      ReadsWork();
      EntryInPage(W, Geo().blocks, offset, pageSize);
      hide EmuEeprom.Shape, Hwa.Ok;
      var blockOffset := BlockStart(W, offset);
      var withinBlock := offset - blockOffset;
      var buffer := hwa.Read(page, blockOffset, W);
      SliceOfSlice(hwa.Bytes(page)[..], blockOffset, W, withinBlock, 4);
      e := ReadSlot(buffer[withinBlock..withinBlock + SERIALIZED_ENTRY_SIZE]);
    }

    method Read(address: nat) returns (status: ReadStatus, data: Word)
      requires Valid()
      modifies Repr()
      ensures Valid() && (State(), status, data) == EmuModel.Read(old(State()), address)
    {
      hide Sized, Geometry.Valid, BlockOf, At, Image, EmuEeprom.StagedState, FindBackward;
      if address >= maxAddress {
        return ReadError, 0;
      }
      if cache[address] != ERASED_VALUE {
        return ReadOk, cache[address];
      }
      var page := FindValidPage(false);
      if page.None? {
        return NoReadPage, 0;
      }
      PageEndFacts();
      Sizes();
      CursorFacts();
      var readOffset: nat := pageSize;
      if nextWritePage == page.value && nextWriteOffset > 0 {
        readOffset := nextWriteOffset;
      }
      LastSlot(readOffset);
      readOffset := readOffset - SERIALIZED_ENTRY_SIZE;
      PreviousSlot(Geo(), writeBlockSize, readOffset);
      var found := ScanForAddress(page.value, readOffset, address);
      if found.None? {
        return NoVariable, 0;
      }
      cache[address] := found.value;
      StateSized();
      return ReadOk, found.value;
    }

    // -------------------------------------------------------------- format, factory page, start-up

    method SetPageStatus(page: PageId, status: PageStatus)
      requires Valid()
      modifies this
      ensures Valid() && State() == SetStatus(old(State()), page, status)
    {
      hide Sized, Geometry.Valid, Hwa.Contents, BlockOf, At, EmuEeprom.StagedState;
      pageStatusCache := pageStatusCache.With(page, status);
      StateSized();
    }

    /** Empties the mirror, with nothing pending in it. */
    method ClearCache()
      requires Valid()
      modifies this, cache
      ensures Valid() && State() == old(State()).(cache := EmptyMirror(old(State()).g), cacheDirty := false)
    {
      hide Sized, Geometry.Valid, Hwa.Contents, BlockOf, At, EmuEeprom.StagedState;
      FillCache();
      cacheDirty := false;
      StateSized();
    }

    /** The copy loops of `store_to_factory` and `restore_from_factory`: block by block, up to an erased one. */
    method CopyBlocks(from: PageId, to: PageId)
      requires Valid() && from != to
      modifies Repr()
      ensures Valid() && State() == CopyPage(old(State()), from, to, 0)
    {
      hide Sized, Geometry.Valid, Hwa.Contents, BlockOf, At, EmuEeprom.StagedState, Image, AllErased, IsErased, Times,
           CopyPage;
      Sizes();
      ReadsWork();
      hide EmuEeprom.Shape, Hwa.Ok;
      var W := writeBlockSize;
      ghost var b := 0;
      ScanStart(W);
      var offset: nat := 0;
      while offset < pageSize
        invariant Valid() && offset <= pageSize && offset == Times(b, W) && b <= Geo().blocks
        invariant CopyPage(State(), from, to, b) == CopyPage(old(State()), from, to, 0)
        modifies Repr()
      {
        ghost var s := State();
        BlockAt(W, Geo().blocks, b, offset);
        var block := hwa.Read(from, offset, W);
        BlockInImage(hwa.Bytes(from)[..], W, Geo().blocks, offset);
        ErasedBytes(block);
        ImageOf(from);
        CopyUnfolded(s, from, to, b);
        if AllErased(block) {
          return;
        }
        hwa.Write(to, offset, block);
        StateSized();
        offset := offset + W;
        b := b + 1;
      }
      PageEnd(b, Geo().blocks, W);
      CopyUnfolded(State(), from, to, b);
    }

    static lemma CopyUnfolded(s: Store, from: PageId, to: PageId, b: nat)
      requires Sized(s) && from != to
      ensures b >= s.g.blocks ==> CopyPage(s, from, to, b) == s
      ensures b < s.g.blocks && IsErased(s.flash.Get(from)[b]) ==> CopyPage(s, from, to, b) == s
      ensures b < s.g.blocks && !IsErased(s.flash.Get(from)[b]) ==>
                && Sized(ProgramBlock(s, to, b, s.flash.Get(from)[b]))
                && CopyPage(s, from, to, b) == CopyPage(ProgramBlock(s, to, b, s.flash.Get(from)[b]), from, to, b + 1)
    {
    }

    lemma ImageOf(page: PageId)
      requires Valid()
      ensures State().flash.Get(page) == Image(hwa.Bytes(page)[..], writeBlockSize, Geo().blocks)
    {
      match page {
        case Page1 =>
        case Page2 =>
        case Factory =>
      }
    }

    static lemma BlockAt(w: nat, n: nat, b: nat, offset: nat)
      requires w >= 1 && offset == Times(b, w) && offset < n * w
      ensures b < n && offset % w == 0 && offset / w == b && offset + w == Times(b + 1, w) && offset + w <= n * w
    {
      MultipleOf(b, w);
      ProductOrder(b, n, w);
      BlockFits(b, n, w);
    }

    /** The common start of `format` and `restore_from_factory`. */
    method BlankPages(factoryToo: bool)
      requires Valid()
      modifies Repr()
      ensures Valid() && State() == Blank(old(State()), factoryToo)
    {
      hide State, Sized, EmuEeprom.Shape, EmuLog.ErasedPage;
      ClearWriteBlock();
      ErasePage(Page1);
      SetPageStatus(Page1, Erased);
      ErasePage(Page2);
      SetPageStatus(Page2, Erased);
      if factoryToo {
        ErasePage(Factory);
        SetPageStatus(Factory, Erased);
      }
      ClearCache();
    }

    method Format(formatFactoryPage: bool)
      requires Valid()
      modifies Repr()
      ensures Valid() && State() == EmuModel.Format(old(State()), formatFactoryPage)
    {
      hide State, Sized, EmuEeprom.Shape, Blank, Stamp;
      BlankPages(formatFactoryPage);
      StampPage(Page1, PageStatus.Valid);
      StampPage(Page2, Formatted);
      SetNext(Page1);
    }

    /** A status record on a page that has room for it. */
    method StampPage(page: PageId, status: PageStatus)
      requires Valid()
      modifies Repr()
      ensures Valid() && State() == Stamp(old(State()), page, status)
    {
      hide State, Sized, EmuEeprom.Shape, EmuModel.WritePageStatus;
      var ok := WritePageStatus(page, status);
    }

    method StoreToFactory() returns (ok: bool)
      requires Valid()
      modifies Repr()
      ensures Valid() && (State(), ok) == EmuModel.StoreToFactory(old(State()))
    {
      hide State, Sized, EmuEeprom.Shape, EmuModel.Flush, EmuLog.ErasedPage, CopyPage;
      ok := Flush();
      if !ok {
        return;
      }
      var page := FindValidPage(false);
      if page.None? {
        return false;
      }
      ErasePage(Factory);
      SetPageStatus(Factory, Erased);
      CopyBlocks(page.value, Factory);
      var status := CachedPageStatus(page.value);
      SetPageStatus(Factory, status);
    }

    method CachedPageStatus(page: PageId) returns (status: PageStatus)
      requires Valid()
      ensures status == State().status.Get(page)
    {
      status := pageStatusCache.Get(page);
    }

    method RestoreFromFactory() returns (ok: bool)
      requires Valid()
      modifies Repr()
      ensures Valid() && (State(), ok) == EmuModel.RestoreFromFactory(old(State()))
    {
      hide State, Sized, EmuEeprom.Shape, EmuModel.WritePageStatus, Blank, CopyPage, EmuModel.Cache, FlushBlock,
        EmuModel.RefreshPageStatus;
      RefreshPageStatus(Factory);
      var status := CachedPageStatus(Factory);
      if status != PageStatus.Valid {
        return false;
      }
      BlankPages(false);
      CopyBlocks(Factory, Page1);
      ok := WritePageStatus(Page1, PageStatus.Valid);
      if !ok {
        return;
      }
      ok := WritePageStatus(Page2, Formatted);
      if !ok {
        return;
      }
      SetNext(Page1);
      ok := Cache();
    }

    /** `page_status`: a fresh look at the flash. */
    method PageStatusOf(page: PageId) returns (status: PageStatus)
      requires Valid()
      modifies this
      ensures Valid() && State() == EmuModel.RefreshPageStatus(old(State()), page)
      ensures status == State().status.Get(page)
    {
      RefreshPageStatus(page);
      status := CachedPageStatus(page);
    }

    /** Reloading after an interrupted transfer: transfer again, or format. */
    method ResumeTransfer()
      requires Valid()
      modifies Repr()
      ensures Valid() && State() == Resume(old(State()))
    {
      hide State, Sized, EmuEeprom.Shape, EmuModel.Cache, EmuModel.PageTransfer, EmuModel.Format;
      var ok := Cache();
      if !ok {
        Format(false);
        return;
      }
      var status := PageTransfer();
      if status != WriteOk {
        Format(false);
      }
    }

    method LoadOrFormat()
      requires Valid()
      modifies Repr()
      ensures Valid() && State() == Load(old(State()))
    {
      hide State, Sized, EmuEeprom.Shape, EmuModel.Cache, EmuModel.Format;
      var ok := Cache();
      if !ok {
        Format(false);
      }
    }

    /** Start-up: the statuses are read from flash and the combination found is repaired. */
    method Init()
      requires Valid()
      modifies Repr()
      ensures Valid() && State() == EmuModel.Init(old(State()))
    {
      hide State, Sized, EmuEeprom.Shape, EmuModel.RefreshPageStatus, Repair;
      ClearWriteBlock();
      SetNext(Page1);
      ClearCache();
      RefreshPageStatus(Page1);
      RefreshPageStatus(Page2);
      RefreshPageStatus(Factory);
      RepairPages();
    }

    method RepairPages()
      requires Valid()
      modifies Repr()
      ensures Valid() && State() == Repair(old(State()))
    {
      hide State, Sized, EmuEeprom.Shape, Load, Resume, Stamp, EmuModel.Format, EmuLog.ErasedPage;
      var status1 := CachedPageStatus(Page1);
      var status2 := CachedPageStatus(Page2);
      match status1 {
        case Erased =>
          if status2 == PageStatus.Valid {
            ErasePage(Page1);
            StampPage(Page1, Formatted);
            LoadOrFormat();
          } else {
            Format(false);
          }
        case Receiving =>
          if status2 == PageStatus.Valid {
            ErasePage(Page1);
            ResumeTransfer();
          } else {
            Format(false);
          }
        case Valid =>
          match status2 {
            case Valid =>
              Format(false);
              LoadOrFormat();
            case Erased =>
              ErasePage(Page2);
              StampPage(Page2, Formatted);
              LoadOrFormat();
            case Formatted =>
              LoadOrFormat();
            case Receiving =>
              ErasePage(Page2);
              ResumeTransfer();
          }
        case Formatted =>
          if status2 == PageStatus.Valid {
            LoadOrFormat();
          } else {
            Format(false);
          }
      }
    }
  }
}
