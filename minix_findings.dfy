/**
 * Three places where tools/minix/minix.c does not do what it evidently means to, modelled as
 * the code has them, each with what follows from it. The rest of the model uses the
 * corrected behaviour: Minix.Volume.InodeAlloc clears the zones from 0, Minix.Volume.SuperWrite
 * writes the bitmaps held in memory, and the directory scan reads block blk at blk*BLOCK_SIZE.
 */
module MinixFindings {
  import opened Wrappers
  import opened MinixLayout
  import opened Bitmap
  import opened Device
  import opened Minix

  /**
   * The zone-clearing loop of minix_inode_alloc as written: its counter is declared without
   * a value, so it starts from whatever start the variable happens to hold, and only the
   * zones from start on are cleared.
   */
  method ClearZonesAsWritten(ip: MemInode, start: nat)
    requires ip.Valid()
    modifies ip`i_zones
    ensures ip.Valid()
    ensures forall z :: 0 <= z < NR_ZONES ==> ip.i_zones[z] == if z < start then old(ip.i_zones[z]) else BLOCK_NULL
  {
    var i := start;
    while i < NR_ZONES
      invariant ip.Valid()
      invariant forall z :: 0 <= z < NR_ZONES ==>
                  ip.i_zones[z] == if z < start || i <= z then old(ip.i_zones[z]) else BLOCK_NULL
    {
      ip.i_zones := ip.i_zones[i := BLOCK_NULL];
      i := i + 1;
    }
  }

  /**
   * With a counter that starts at NR_ZONES or above nothing is cleared: an inode slot that
   * still holds the zones of a deleted file hands them to the new inode, which then shares
   * blocks with whatever they were given to since.
   */
  method StaleZonesSurvive(ip: MemInode, start: nat)
    requires ip.Valid() && start >= NR_ZONES
    modifies ip`i_zones
    ensures ip.Valid() && ip.i_zones == old(ip.i_zones)
  {
    ClearZonesAsWritten(ip, start);
    assert ip.i_zones == old(ip.i_zones);
  }

  /** A bitmap of zero bytes: its lowest clear bit is bit 0. */
  lemma ZeroMapFirstFree(s: seq<byte>)
    requires |s| > 0 && forall k :: 0 <= k < |s| ==> s[k] == 0
    ensures !IsSet(s, 0) && LowestClear(s) == Some(0)
  {
    assert s[0] == 0;
    assert !BitOf(s[0], 0);
    assert !IsSet(s, 0);
  }

  /**
   * minix_umount as written (through minix_super_write as written), then minix_mount: an
   * inode map whose bit 0 was set comes back with bit 0 clear, so the next
   * minix_inode_alloc hands out an inode that is in use.
   */
  method UmountForgetsAllocation(v: Volume) returns (o: Outcome, r: Result<Volume>)
    requires v.Valid() && v.inodeMap.Length > 0 && IsSet(v.inodeMap[..], 0)
    modifies v`inodeMap, v`zoneMap, v.dev`supers, v.dev`bytes
    ensures o.Pass? ==>
              r.Ok? && r.value.inodeMap.Length > 0 && !IsSet(r.value.inodeMap[..], 0) &&
              LowestClear(r.value.inodeMap[..]) == Some(0)
  {
    o := v.SuperWriteAsWritten();
    r := Mount(v.dev);
    if o.Pass? {
      assert r.value.inodeMap[..] == v.inodeMap[..];
      ZeroMapFirstFree(r.value.inodeMap[..]);
    }
  }

  /**
   * The byte address dirent_search starts reading directory block blk at, as written: the
   * block number, already physical, is offset by s_first_data_block a second time.
   */
  function ScanBaseAsWritten(firstDataBlock: nat, blk: nat): (a: nat)
    ensures a % BLOCK_SIZE == 0 && a / BLOCK_SIZE == firstDataBlock + blk
  {
    (firstDataBlock + blk) * BLOCK_SIZE
  }

  /**
   * On any file system whose data zones do not start at block 0, the scan reads entry e of
   * directory block blk at a different address, in a different block, from the one
   * minix_dirent_add writes it at.
   */
  lemma ScanBaseMissesEntry(firstDataBlock: nat, blk: nat, e: nat)
    requires firstDataBlock != BLOCK_NULL
    ensures ScanBaseAsWritten(firstDataBlock, blk) + (e % DIRENTS_PER_BLOCK) * DIRENT_SIZE != EntryAddr(blk, e)
    ensures ScanBaseAsWritten(firstDataBlock, blk) / BLOCK_SIZE != EntryAddr(blk, e) / BLOCK_SIZE
  {
    EntryAddrInBlock(blk, e);
  }
}
