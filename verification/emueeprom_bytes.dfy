/**
 The byte format: entries are stored little-endian, value first; a page of bytes is the sequence
 of its write blocks.
 */
module EmuBytes {
  import opened Prelude
  import opened EmuLog

  const ERASED_BYTE: Byte := 0xFF
  const SERIALIZED_ENTRY_SIZE := 4
  const INTERNAL_BLOCK_SIZE := 256

  function DecodeWord(b: seq<Byte>): Word
    requires |b| == 2
  {
    (b[0] as int) + 0x100 * (b[1] as int)
  }

  function EncodeWord(v: Word): (b: seq<Byte>)
    ensures |b| == 2 && DecodeWord(b) == v
  {
    [v % 0x100, v / 0x100]
  }

  function DecodeEntry(b: seq<Byte>): Entry
    requires |b| == 4
  {
    Entry(DecodeWord(b[2..4]), DecodeWord(b[0..2]))
  }

  function EncodeEntry(e: Entry): (b: seq<Byte>)
    ensures |b| == 4
  {
    EncodeWord(e.value) + EncodeWord(e.address)
  }

  /** The two directions of the entry format undo each other. */
  lemma EntryRoundTrip(e: Entry, b: seq<Byte>)
    requires |b| == 4
    ensures DecodeEntry(EncodeEntry(e)) == e
    ensures EncodeEntry(DecodeEntry(b)) == b
  {
    assert EncodeEntry(e)[2..4] == EncodeWord(e.address);
    assert EncodeEntry(e)[0..2] == EncodeWord(e.value);
    assert EncodeWord(DecodeWord(b[0..2])) == b[0..2];
    assert EncodeWord(DecodeWord(b[2..4])) == b[2..4];
  }

  /** On flash an entry is its value and then its address, the low byte of each first. */
  lemma EntryOnFlash(e: Entry, b0: Byte, b1: Byte, b2: Byte, b3: Byte)
    ensures EncodeEntry(e) == [e.value % 0x100, e.value / 0x100, e.address % 0x100, e.address / 0x100]
    ensures DecodeEntry([b0, b1, b2, b3]) == Entry(b2 as int + 0x100 * b3 as int, b0 as int + 0x100 * b1 as int)
  {
    var b := [b0, b1, b2, b3];
    assert b[2..4] == [b2, b3] && b[0..2] == [b0, b1];
  }

  /** The status records, byte by byte. */
  lemma StatusOnFlash()
    ensures EncodeEntry(StatusEntry(Valid)) == [0x00, 0x00, 0xFF, 0xFF]
    ensures EncodeEntry(StatusEntry(Formatted)) == [0xEE, 0xEE, 0xFF, 0xFF]
    ensures EncodeEntry(StatusEntry(Receiving)) == [0x77, 0x77, 0xFF, 0xFF]
    ensures forall b: seq<Byte> :: |b| == 4 ==>
              EntryStatus(DecodeEntry(b)) ==
              if b == [0x00, 0x00, 0xFF, 0xFF] then Some(Valid)
              else if b == [0xEE, 0xEE, 0xFF, 0xFF] then Some(Formatted)
              else if b == [0x77, 0x77, 0xFF, 0xFF] then Some(Receiving)
              else None
  {
    forall b: seq<Byte> | |b| == 4
      ensures EntryStatus(DecodeEntry(b)) ==
              if b == [0x00, 0x00, 0xFF, 0xFF] then Some(Valid)
              else if b == [0xEE, 0xEE, 0xFF, 0xFF] then Some(Formatted)
              else if b == [0x77, 0x77, 0xFF, 0xFF] then Some(Receiving)
              else None
    {
      assert b == [b[0], b[1], b[2], b[3]];
      EntryOnFlash(ERASED_ENTRY, b[0], b[1], b[2], b[3]);
    }
  }

  /** `serialize_value`: byte `index` gets bits 8 * index and up. */
  method SerializeValue(value: Word, data: array<Byte>, offset: nat)
    requires offset + 2 <= data.Length
    modifies data
    ensures data[offset..offset + 2] == EncodeWord(value)
    ensures data[..offset] == old(data[..offset])
    ensures data[offset + 2..] == old(data[offset + 2..])
  {
    var index := 0;
    var rest: int := value;
    while index < 2
      invariant 0 <= index <= 2
      invariant rest == (if index == 0 then value else if index == 1 then value / 0x100 else 0)
      invariant index > 0 ==> data[offset] == value % 0x100
      invariant index > 1 ==> data[offset + 1] == value / 0x100
      invariant data[..offset] == old(data[..offset])
      invariant data[offset + 2..] == old(data[offset + 2..])
    {
      data[offset + index] := rest % 0x100;
      rest := rest / 0x100;
      index := index + 1;
    }
  }

  /** `deserialize_value`: the shifted bytes do not overlap, so or-ing them adds them up. */
  method DeserializeValue(data: seq<Byte>) returns (value: Word)
    requires |data| == 2
    ensures value == DecodeWord(data)
  {
    var index, sum: int, weight: int := 0, 0, 1;
    while index < 2
      invariant 0 <= index <= 2
      invariant weight == (if index == 0 then 1 else if index == 1 then 0x100 else 0x1_0000)
      invariant sum == (if index == 0 then 0 else if index == 1 then data[0] else DecodeWord(data))
    {
      sum := sum + (data[index] as int) * weight;
      weight := weight * 0x100;
      index := index + 1;
    }
    value := sum;
  }

  // ---------------------------------------------------------------- blocks of bytes

  predicate AllErased(data: seq<Byte>) {
    forall i :: 0 <= i < |data| ==> data[i] == ERASED_BYTE
  }

  function SlotOf(data: seq<Byte>, i: nat): Entry
    requires 4 * i + 4 <= |data|
  {
    DecodeEntry(data[4 * i..4 * i + 4])
  }

  function BlockOf(data: seq<Byte>): (b: Block)
    ensures |b| == |data| / 4
  {
    seq(|data| / 4, i requires 0 <= i < |data| / 4 => SlotOf(data, i))
  }

  /** The source tests bytes; the model tests entries. */
  lemma ErasedBytes(data: seq<Byte>)
    requires |data| % 4 == 0
    ensures AllErased(data) <==> IsErased(BlockOf(data))
  {
    if AllErased(data) {
      forall i | 0 <= i < |data| / 4 ensures BlockOf(data)[i] == ERASED_ENTRY {
        var slot := data[4 * i..4 * i + 4];
        assert slot[0] == 0xFF && slot[1] == 0xFF && slot[2] == 0xFF && slot[3] == 0xFF;
      }
    }
    if IsErased(BlockOf(data)) {
      forall k | 0 <= k < |data| ensures data[k] == ERASED_BYTE {
        var i := k / 4;
        assert BlockOf(data)[i] == ERASED_ENTRY;
        var slot := data[4 * i..4 * i + 4];
        EntryRoundTrip(ERASED_ENTRY, slot);
        assert EncodeEntry(ERASED_ENTRY) == [0xFF, 0xFF, 0xFF, 0xFF];
        assert slot[k - 4 * i] == data[k];
      }
    }
  }

  lemma ErasedSlot(data: seq<Byte>)
    requires |data| == 4
    ensures AllErased(data) <==> DecodeEntry(data) == ERASED_ENTRY
  {
    ErasedBytes(data);
    assert BlockOf(data) == [DecodeEntry(data)] by {
      assert data[0..4] == data;
    }
  }

  /** Writing one encoded entry into a slot changes just that entry. */
  lemma SlotWritten(before: seq<Byte>, after: seq<Byte>, n: nat, e: Entry)
    requires |before| == |after| && |before| % 4 == 0 && 4 * n + 4 <= |before|
    requires after[..4 * n] == before[..4 * n] && after[4 * n + 4..] == before[4 * n + 4..]
    requires after[4 * n..4 * n + 4] == EncodeEntry(e)
    ensures BlockOf(after) == BlockOf(before)[n := e]
  {
    EntryRoundTrip(e, EncodeEntry(e));
    forall i | 0 <= i < |before| / 4 && i != n
      ensures after[4 * i..4 * i + 4] == before[4 * i..4 * i + 4]
    {
      forall k | 4 * i <= k < 4 * i + 4 ensures after[k] == before[k] {
        if i < n {
          assert after[..4 * n][k] == before[..4 * n][k];
        } else {
          assert after[4 * n + 4..][k - 4 * n - 4] == before[4 * n + 4..][k - 4 * n - 4];
        }
      }
    }
  }

  lemma SliceOfSlice(data: seq<Byte>, lo: nat, size: nat, from: nat, n: nat)
    requires lo + size <= |data| && from + n <= size
    ensures data[lo..lo + size][from..from + n] == data[lo + from..lo + from + n]
  {
    var a, b := data[lo..lo + size][from..from + n], data[lo + from..lo + from + n];
    assert |a| == |b|;
    forall k | 0 <= k < n ensures a[k] == b[k] {
      assert a[k] == data[lo..lo + size][from + k];
    }
  }

  lemma ZeroBytes(data: seq<Byte>)
    requires forall i :: 0 <= i < |data| ==> data[i] == 0
    ensures BlockOf(data) == seq(|data| / 4, _ => Entry(0, 0))
  {
    forall i | 0 <= i < |data| / 4 ensures BlockOf(data)[i] == Entry(0, 0) {
      var slot := data[4 * i..4 * i + 4];
      assert slot[0] == 0 && slot[1] == 0 && slot[2] == 0 && slot[3] == 0;
    }
  }

  // ---------------------------------------------------------------- pages of bytes

  /** Bytes of write block `b`. */
  function BlockBytes(data: seq<Byte>, w: nat, b: nat): seq<Byte>
    requires (b + 1) * w <= |data|
  {
    assert b * w <= (b + 1) * w;
    data[b * w..(b + 1) * w]
  }

  lemma BlockFits(b: nat, n: nat, w: nat)
    requires b < n
    ensures (b + 1) * w <= n * w
    ensures b * w + w == (b + 1) * w
  {
    assert n * w == (b + 1) * w + (n - b - 1) * w;
  }

  /** A page of `n` write blocks of `w` bytes. */
  function Image(data: seq<Byte>, w: nat, n: nat): (p: PageImage)
    requires |data| == n * w
    ensures |p| == n
  {
    seq(n, b requires 0 <= b < n => (BlockFits(b, n, w); BlockOf(BlockBytes(data, w, b))))
  }

  lemma ImageSized(g: Geometry, data: seq<Byte>, w: nat)
    requires w == 4 * g.entries && |data| == g.blocks * w
    ensures SizedPage(g, Image(data, w, g.blocks))
  {
    forall b | 0 <= b < g.blocks ensures |Image(data, w, g.blocks)[b]| == g.entries {
      BlockFits(b, g.blocks, w);
      assert |BlockBytes(data, w, b)| == w;
    }
  }

  lemma ErasedBlockOf(g: Geometry, data: seq<Byte>)
    requires |data| == 4 * g.entries && AllErased(data)
    ensures BlockOf(data) == ErasedBlock(g)
  {
    ErasedBytes(data);
  }

  lemma PartErased(data: seq<Byte>, w: nat, b: nat)
    requires AllErased(data) && (b + 1) * w <= |data|
    ensures AllErased(BlockBytes(data, w, b)) && |BlockBytes(data, w, b)| == w
  {
    assert (b + 1) * w == b * w + w;
  }

  lemma ErasedImage(g: Geometry, data: seq<Byte>, w: nat)
    requires w == 4 * g.entries && |data| == g.blocks * w && AllErased(data)
    ensures Image(data, w, g.blocks) == ErasedPage(g)
  {
    hide AllErased, BlockBytes, BlockOf, ErasedBlock;
    forall b | 0 <= b < g.blocks ensures Image(data, w, g.blocks)[b] == ErasedBlock(g) {
      BlockFits(b, g.blocks, w);
      PartErased(data, w, b);
      ErasedBlockOf(g, BlockBytes(data, w, b));
    }
  }

  /** Distinct blocks lie in disjoint byte ranges. */
  lemma BlocksApart(b: nat, c: nat, w: nat)
    requires b < c
    ensures (b + 1) * w <= c * w
  {
    BlockFits(b, c, w);
  }

  /** Bytes [lo, hi) are the only ones that differ. */
  ghost predicate DiffersWithin(before: seq<Byte>, after: seq<Byte>, lo: nat, hi: nat) {
    && |before| == |after| && lo <= hi <= |before|
    && (forall k :: 0 <= k < lo ==> after[k] == before[k])
    && (forall k :: hi <= k < |before| ==> after[k] == before[k])
  }

  lemma OtherBlockKept(before: seq<Byte>, after: seq<Byte>, w: nat, n: nat, b: nat, c: nat)
    requires |before| == |after| == n * w && b < n && c < n && b != c
    requires DiffersWithin(before, after, b * w, b * w + w)
    ensures (c + 1) * w <= n * w
    ensures BlockBytes(after, w, c) == BlockBytes(before, w, c)
  {
    BlockFits(c, n, w);
    BlockFits(b, n, w);
    if c < b {
      BlocksApart(c, b, w);
    } else {
      BlocksApart(b, c, w);
    }
  }

  /** Programming write block `b` replaces block `b` of the image and no other. */
  lemma ProgrammedImage(before: seq<Byte>, after: seq<Byte>, w: nat, n: nat, b: nat, data: seq<Byte>)
    requires |before| == |after| == n * w && b < n
    requires DiffersWithin(before, after, b * w, b * w + w)
    requires after[b * w..b * w + w] == data
    ensures Image(after, w, n) == Image(before, w, n)[b := BlockOf(data)]
  {
    BlockFits(b, n, w);
    forall c | 0 <= c < n && c != b ensures Image(after, w, n)[c] == Image(before, w, n)[c] {
      OtherBlockKept(before, after, w, n, b, c);
    }
  }
}
