/** The flash backend: three pages of bytes, erased as a whole and programmed block by block. */
module EmuHwa {
  import opened Prelude
  import opened EmuLog
  import opened EmuModel
  import opened EmuBytes

  class Hwa {
    const pageSize: nat
    const writeBlock: nat
    const page1: array<Byte>
    const page2: array<Byte>
    const factory: array<Byte>
    /** Every erase and program operation so far, with what the flash held before it. */
    ghost var trace: seq<Event>

    predicate Ok() {
      && writeBlock >= 4 && writeBlock % 4 == 0
      && pageSize % writeBlock == 0 && pageSize > 0
      && page1.Length == page2.Length == factory.Length == pageSize
      && page1 != page2 && page1 != factory && page2 != factory
    }

    function Entries(): nat
      requires Ok()
    {
      writeBlock / 4
    }

    function Blocks(): nat
      requires Ok()
    {
      pageSize / writeBlock
    }

    function Bytes(page: PageId): array<Byte> {
      match page
      case Page1 => page1
      case Page2 => page2
      case Factory => factory
    }

    lemma Sizes()
      requires Ok()
      ensures pageSize == Blocks() * writeBlock && writeBlock == 4 * Entries() && Entries() >= 1
    {
    }

    ghost function PageImageOf(page: PageId): PageImage
      requires Ok()
      reads page1, page2, factory
    {
      Sizes();
      Image(Bytes(page)[..], writeBlock, Blocks())
    }

    ghost function Contents(): Flash
      requires Ok()
      reads page1, page2, factory
    {
      Flash(PageImageOf(Page1), PageImageOf(Page2), PageImageOf(Factory))
    }

    constructor (pageSize: nat, writeBlock: nat, page1: array<Byte>, page2: array<Byte>, factory: array<Byte>)
      ensures this.pageSize == pageSize && this.writeBlock == writeBlock
      ensures this.page1 == page1 && this.page2 == page2 && this.factory == factory
      ensures trace == []
    {
      this.pageSize, this.writeBlock := pageSize, writeBlock;
      this.page1, this.page2, this.factory := page1, page2, factory;
      trace := [];
    }

    /** Erasing sets every byte of one page to 0xFF. */
    method ErasePage(page: PageId, ghost g: Geometry)
      requires Ok() && g.entries == Entries() && g.blocks == Blocks()
      modifies this`trace, Bytes(page)
      ensures Contents() == old(Contents()).With(page, ErasedPage(g))
      ensures trace == old(trace) + [Event(old(Contents()), Erase(page))]
    {
      Sizes();
      var bytes := Bytes(page);
      var i := 0;
      while i < pageSize
        invariant 0 <= i <= pageSize
        invariant forall k :: 0 <= k < i ==> bytes[k] == ERASED_BYTE
        modifies bytes
      {
        bytes[i] := ERASED_BYTE;
        i := i + 1;
      }
      trace := trace + [Event(old(Contents()), Erase(page))];
      ErasedImage(g, bytes[..], writeBlock);
    }

    /** Programming one aligned write block. */
    method Write(page: PageId, offset: nat, data: seq<Byte>)
      requires Ok() && offset % writeBlock == 0 && offset < pageSize && |data| == writeBlock
      modifies this`trace, Bytes(page)
      ensures offset / writeBlock < Blocks()
      ensures Contents() ==
              old(Contents()).With(page, old(Contents()).Get(page)[offset / writeBlock := BlockOf(data)])
      ensures trace == old(trace) + [Event(old(Contents()), Program(page, offset / writeBlock, BlockOf(data)))]
    {
      hide Image, BlockOf;
      var bytes := Bytes(page);
      ghost var b := offset / writeBlock;
      ghost var before := bytes[..];
      BlockPlace(offset);
      CopyInto(bytes, offset, data);
      trace := trace + [Event(old(Contents()), Program(page, b, BlockOf(data)))];
      assert bytes[..][offset..offset + writeBlock] == data;
      ProgrammedImage(before, bytes[..], writeBlock, Blocks(), b, data);
    }

    lemma BlockPlace(offset: nat)
      requires Ok() && offset % writeBlock == 0 && offset < pageSize
      ensures pageSize == Blocks() * writeBlock && offset / writeBlock < Blocks()
      ensures offset == offset / writeBlock * writeBlock && offset + writeBlock <= pageSize
    {
      var b := offset / writeBlock;
      Sizes();
      assert offset == b * writeBlock;
      ProductOrder(b, Blocks(), writeBlock);
      BlockFits(b, Blocks(), writeBlock);
    }

    /** The bytes of a block, one by one. */
    method CopyInto(bytes: array<Byte>, offset: nat, data: seq<Byte>)
      requires offset + |data| <= bytes.Length
      modifies bytes
      ensures DiffersWithin(old(bytes[..]), bytes[..], offset, offset + |data|)
      ensures bytes[..][offset..offset + |data|] == data
    {
      var i := 0;
      while i < |data|
        invariant 0 <= i <= |data|
        invariant bytes[offset..offset + i] == data[..i]
        invariant forall k :: 0 <= k < offset ==> bytes[k] == old(bytes[k])
        invariant forall k :: offset + |data| <= k < bytes.Length ==> bytes[k] == old(bytes[k])
      {
        bytes[offset + i] := data[i];
        assert bytes[offset..offset + i + 1] == bytes[offset..offset + i] + [data[i]];
        i := i + 1;
      }
    }

    method Read(page: PageId, offset: nat, size: nat) returns (data: seq<Byte>)
      requires Ok() && offset + size <= pageSize
      ensures data == Bytes(page)[..][offset..offset + size]
    {
      data := Bytes(page)[offset..offset + size];
    }
  }
}
