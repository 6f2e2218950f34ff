/** BTRFS tree nodes, their items, and the chunk map that places logical addresses on the disk (FS/BTRFS, disk/volume). */
module BtrfsNodes {
  import opened Bytes
  import opened MapOrder
  import opened Wrappers

  datatype Key = Key(objectId: nat, itemType: nat, offset: nat)

  const INODE_ITEM := 0x01
  const INODE_REF := 0x0C
  const DIR_ITEM := 0x54
  const DIR_INDEX := 0x60
  const EXTENT_DATA := 0x6C

  /** Where a piece of a file lies: the extent's logical address, where in it the piece starts, how long it is. */
  datatype Extent = Extent(logicalAddress: nat, offset: nat, lSize: nat)

  datatype DataItem = ExtentData(extent: Extent) | OtherData(content: seq<byte>)

  /** A node at level 0 holds items with their data in parallel, a higher one pointers to other nodes. */
  datatype GenericNode =
    | LeafNode(items: seq<Key>, dataItems: seq<DataItem>)
    | InternalNode(level: nat, children: seq<nat>)

  // ---------- The chunk map ----------

  datatype Chunk = Chunk(size: nat, stripeOffset: nat)

  type ChunkMap = map<nat, Chunk>

  predicate Covers(chunks: ChunkMap, key: nat, address: nat)
  {
    key in chunks && key <= address && address - key < chunks[key].size
  }

  predicate Mapped(chunks: ChunkMap, address: nat)
  {
    exists key :: key in chunks && Covers(chunks, key, address)
  }

  ghost predicate Disjoint(chunks: ChunkMap)
  {
    forall k, l, address: nat | Covers(chunks, k, address) && Covers(chunks, l, address) :: k == l
  }

  /** The chunk of a mapped address; the only one if the chunks are disjoint. */
  ghost function KeyOf(chunks: ChunkMap, address: nat): (key: nat)
    requires Mapped(chunks, address)
    ensures Covers(chunks, key, address)
  {
    var key :| key in chunks && Covers(chunks, key, address);
    key
  }

  datatype Place = Place(offset: nat, chunkSize: nat)

  function PlaceIn(chunks: ChunkMap, key: nat, address: nat): Place
    requires Covers(chunks, key, address)
  {
    Place(chunks[key].stripeOffset + (address - key), chunks[key].size)
  }

  /** Goes through the chunks in arbitrary order and takes the first that covers the address. */
  method LocatePhysicalOffsetSize(chunks: ChunkMap, logicalOffset: nat) returns (r: Result<Place>)
    ensures r.Success? <==> Mapped(chunks, logicalOffset)
    ensures r.Success? ==> exists key | Covers(chunks, key, logicalOffset) :: r.value == PlaceIn(chunks, key, logicalOffset)
    ensures r.Success? && Disjoint(chunks) ==> r.value == PlaceIn(chunks, KeyOf(chunks, logicalOffset), logicalOffset)
  {
    var rest := chunks.Keys;
    while rest != {}
      invariant rest <= chunks.Keys
      invariant forall key | key in chunks && key !in rest :: !Covers(chunks, key, logicalOffset)
      decreases |rest|
    {
      var keyOffset := Pick(rest);
      if Covers(chunks, keyOffset, logicalOffset) {
        return Success(PlaceIn(chunks, keyOffset, logicalOffset));
      }
      rest := rest - {keyOffset};
    }
    return Failure;
  }

  /** Inside one chunk physical and logical distances are the same. */
  lemma SameChunk(chunks: ChunkMap, address: nat, distance: nat)
    requires Disjoint(chunks) && Mapped(chunks, address)
    requires Covers(chunks, KeyOf(chunks, address), address + distance)
    ensures Mapped(chunks, address + distance) && KeyOf(chunks, address + distance) == KeyOf(chunks, address)
    ensures PlaceIn(chunks, KeyOf(chunks, address), address + distance).offset ==
            PlaceIn(chunks, KeyOf(chunks, address), address).offset + distance
  {
  }
}
