/**
 * The Minix file system driver of tools/minix/minix.c. The driver's global mount state
 * (the superblock, the device and the two bitmaps) becomes a Volume object; an inode read
 * into memory becomes a MemInode object that the operations update in place, as the C code
 * updates the struct d_inode it was handed. Every call to error() becomes a failure result.
 */
module Minix {
  import opened Wrappers
  import opened MinixLayout
  import opened Bitmap
  import opened Device

  /** Byte offsets of the two bitmaps: read (and written) right after the superblock record. */
  const IMAP_OFFSET: nat := SUPER_OFFSET + SUPERBLOCK_SIZE

  function ZmapOffset(imapBlocks: nat): nat
  {
    IMAP_OFFSET + imapBlocks * BLOCK_SIZE
  }

  /**
   * The physical block that logical block l of a file with zone pointers zones is mapped to,
   * given the zone tables stored on the disk, without allocating: a direct pointer, a slot
   * of the single-indirect block, or BLOCK_NULL when nothing is mapped or l is past the
   * single-indirect range.
   */
  function ZoneIn(tables: map<nat, seq<nat>>, zones: seq<nat>, l: nat): nat
    requires |zones| == NR_ZONES
  {
    if l < NR_ZONES_DIRECT then zones[l]
    else if l < NR_ZONES_DIRECT + NR_SINGLE then
      if zones[ZONE_SINGLE] == BLOCK_NULL then BLOCK_NULL
      else TableIn(tables, zones[ZONE_SINGLE] * BLOCK_SIZE)[l - NR_ZONES_DIRECT]
    else BLOCK_NULL
  }

  /** Zone z is the lowest free zone of the zone map m0 (data zones start at first), and m1 is m0 with it taken. */
  ghost predicate Allocated(m0: seq<byte>, m1: seq<byte>, first: nat, z: nat)
  {
    !Full(m0) && z == first + LowestClear(m0).value && m1 == SetBit(m0, LowestClear(m0).value)
  }

  /**
   * A missing single-indirect block became ind, the lowest free zone of m0; slot `slot` of it
   * then gave z as the block at ind held it (t0), or, when it held none, the next free zone.
   */
  ghost predicate AllocatedIndirect(m0: seq<byte>, m1: seq<byte>, t0: map<nat, seq<nat>>, first: nat, ind: nat, slot: nat, z: nat)
    requires slot < NR_SINGLE
  {
    !Full(m0) && ind == first + LowestClear(m0).value &&
    var m := SetBit(m0, LowestClear(m0).value);
    var found := TableIn(t0, ind * BLOCK_SIZE)[slot];
    (found != BLOCK_NULL && z == found && m1 == m) || (found == BLOCK_NULL && Allocated(m, m1, first, z))
  }

  /** Every logical block mapped under (t0, z0) is mapped to the same block under (t1, z1). */
  ghost predicate Keeps(t0: map<nat, seq<nat>>, z0: seq<nat>, t1: map<nat, seq<nat>>, z1: seq<nat>)
    requires |z0| == NR_ZONES && |z1| == NR_ZONES
  {
    forall l: nat :: ZoneIn(t0, z0, l) != BLOCK_NULL ==> ZoneIn(t1, z1, l) == ZoneIn(t0, z0, l)
  }

  lemma KeepsTrans(t0: map<nat, seq<nat>>, z0: seq<nat>, t1: map<nat, seq<nat>>, z1: seq<nat>,
                   t2: map<nat, seq<nat>>, z2: seq<nat>)
    requires |z0| == NR_ZONES && |z1| == NR_ZONES && |z2| == NR_ZONES
    requires Keeps(t0, z0, t1, z1) && Keeps(t1, z1, t2, z2)
    ensures Keeps(t0, z0, t2, z2)
  {
  }

  /** A block unmapped now was unmapped before. */
  lemma KeepsUnmapped(t0: map<nat, seq<nat>>, z0: seq<nat>, t1: map<nat, seq<nat>>, z1: seq<nat>, l: nat)
    requires |z0| == NR_ZONES && |z1| == NR_ZONES
    requires Keeps(t0, z0, t1, z1) && ZoneIn(t1, z1, l) == BLOCK_NULL
    ensures ZoneIn(t0, z0, l) == BLOCK_NULL
  {
  }

  /** Filling an empty pointer of the inode (direct, or the single-indirect one) remaps nothing. */
  lemma KeepsFillPointer(t: map<nat, seq<nat>>, z: seq<nat>, k: nat, v: nat)
    requires |z| == NR_ZONES && k < NR_ZONES && z[k] == BLOCK_NULL
    ensures Keeps(t, z, t, z[k := v])
  {
  }

  /** Filling an empty slot of the single-indirect block remaps nothing. */
  lemma KeepsFillSlot(t: map<nat, seq<nat>>, z: seq<nat>, slot: nat, v: nat)
    requires |z| == NR_ZONES && z[ZONE_SINGLE] != BLOCK_NULL && slot < NR_SINGLE
    requires TableIn(t, z[ZONE_SINGLE] * BLOCK_SIZE)[slot] == BLOCK_NULL
    ensures var a := z[ZONE_SINGLE] * BLOCK_SIZE;
            Keeps(t, z, t[a := TableIn(t, a)[slot := v]], z)
  {
  }

  /** The directory entry at byte a is in use and carries the name filename. */
  predicate Named(dirents: map<nat, Dirent>, a: nat, filename: seq<char>)
  {
    DirentIn(dirents, a).d_ino != INODE_NULL && StrNEq(DirentIn(dirents, a).d_name, filename, MINIX_NAME_MAX)
  }

  /** The directory entry at byte a is free. */
  predicate Free(dirents: map<nat, Dirent>, a: nat)
  {
    DirentIn(dirents, a).d_ino == INODE_NULL
  }

  /**
   * A directory scan's record of the entries it went over: entry e was read (Some address)
   * or skipped as unmapped (None).
   * Read: every entry read sits at its slot in the block its logical block maps to under
   * (tables, zones), and does not carry the name.
   */
  ghost predicate Read(dirents: map<nat, Dirent>, tables: map<nat, seq<nat>>, zones: seq<nat>,
                       seen: seq<Option<nat>>, filename: seq<char>)
    requires |zones| == NR_ZONES
  {
    forall e :: 0 <= e < |seen| && seen[e].Some? ==>
      ZoneIn(tables, zones, EntryBlock(e)) != BLOCK_NULL &&
      seen[e].value == EntryAddr(ZoneIn(tables, zones, EntryBlock(e)), e) &&
      !Named(dirents, seen[e].value, filename)
  }

  /** Skipped: every entry skipped is in a block that is unmapped under (tables, zones). */
  ghost predicate Skipped(tables: map<nat, seq<nat>>, zones: seq<nat>, seen: seq<Option<nat>>)
    requires |zones| == NR_ZONES
  {
    forall e :: 0 <= e < |seen| && seen[e].None? ==> ZoneIn(tables, zones, EntryBlock(e)) == BLOCK_NULL
  }

  /** Mapping more blocks keeps the entries read where they were. */
  lemma ReadKept(dirents: map<nat, Dirent>, t0: map<nat, seq<nat>>, z0: seq<nat>, t1: map<nat, seq<nat>>, z1: seq<nat>,
                 seen: seq<Option<nat>>, filename: seq<char>)
    requires |z0| == NR_ZONES && |z1| == NR_ZONES
    requires Read(dirents, t0, z0, seen, filename) && Keeps(t0, z0, t1, z1)
    ensures Read(dirents, t1, z1, seen, filename)
  {
  }

  /** Reading one more entry, at its slot and without the name, extends the record. */
  lemma ReadOneMore(dirents: map<nat, Dirent>, t: map<nat, seq<nat>>, z: seq<nat>,
                    seen: seq<Option<nat>>, filename: seq<char>, a: nat)
    requires |z| == NR_ZONES && Read(dirents, t, z, seen, filename)
    requires ZoneIn(t, z, EntryBlock(|seen|)) != BLOCK_NULL
    requires a == EntryAddr(ZoneIn(t, z, EntryBlock(|seen|)), |seen|) && !Named(dirents, a, filename)
    ensures Read(dirents, t, z, seen + [Some(a)], filename)
  {
  }

  /** Skipped entries add nothing to what must hold of the entries read. */
  lemma ReadSkipping(dirents: map<nat, Dirent>, t: map<nat, seq<nat>>, z: seq<nat>,
                     seen: seq<Option<nat>>, filename: seq<char>, k: nat)
    requires |z| == NR_ZONES && Read(dirents, t, z, seen, filename)
    ensures Read(dirents, t, z, seen + seq(k, _ => None), filename)
  {
  }

  /** Entries read add nothing to what must hold of the entries skipped. */
  lemma SkippedReadingBlock(t: map<nat, seq<nat>>, z: seq<nat>, seen0: seq<Option<nat>>, seen: seq<Option<nat>>)
    requires |z| == NR_ZONES && Skipped(t, z, seen0) && seen0 <= seen
    requires forall e :: |seen0| <= e < |seen| ==> seen[e].Some?
    ensures Skipped(t, z, seen)
  {
  }

  /** Skipping up to a block's worth of entries, from the first entry of an unmapped block. */
  lemma SkippedBlock(t: map<nat, seq<nat>>, z: seq<nat>, seen: seq<Option<nat>>, k: nat)
    requires |z| == NR_ZONES && Skipped(t, z, seen)
    requires |seen| % DIRENTS_PER_BLOCK == 0 && k <= DIRENTS_PER_BLOCK
    requires ZoneIn(t, z, EntryBlock(|seen|)) == BLOCK_NULL
    ensures Skipped(t, z, seen + seq(k, _ => None))
  {
    BlockOfEntries(|seen|);
  }

  /** What the search loop keeps when it skips the entries of an unmapped block. */
  lemma SkipStep(dirents: map<nat, Dirent>, t0: map<nat, seq<nat>>, z0: seq<nat>, t: map<nat, seq<nat>>, z: seq<nat>,
                 seen: seq<Option<nat>>, filename: seq<char>, k: nat)
    requires |z0| == NR_ZONES && |z| == NR_ZONES && Keeps(t0, z0, t, z)
    requires |seen| % DIRENTS_PER_BLOCK == 0 && k <= DIRENTS_PER_BLOCK && ZoneIn(t, z, EntryBlock(|seen|)) == BLOCK_NULL
    requires Read(dirents, t, z, seen, filename) && Skipped(t0, z0, seen)
    ensures (|seen| + DIRENTS_PER_BLOCK) % DIRENTS_PER_BLOCK == 0
    ensures Read(dirents, t, z, seen + seq(k, _ => None), filename)
    ensures Skipped(t0, z0, seen + seq(k, _ => None))
    ensures LastFree(dirents, seen + seq(k, _ => None)) == LastFree(dirents, seen)
  {
    KeepsUnmapped(t0, z0, t, z, EntryBlock(|seen|));
    SkippedBlock(t0, z0, seen, k);
    ReadSkipping(dirents, t, z, seen, filename, k);
    LastFreeSkipping(dirents, seen, k);
    BlockOfEntries(|seen|);
  }

  /**
   * An entry the scan went over whose block was mapped when the scan began was read, at
   * the place that block still has; so it does not carry the name.
   */
  lemma ScannedAbsent(dirents: map<nat, Dirent>, t0: map<nat, seq<nat>>, z0: seq<nat>, t: map<nat, seq<nat>>, z: seq<nat>,
                      seen: seq<Option<nat>>, filename: seq<char>, e: nat)
    requires |z0| == NR_ZONES && |z| == NR_ZONES && Keeps(t0, z0, t, z)
    requires Read(dirents, t, z, seen, filename) && Skipped(t0, z0, seen)
    requires e < |seen| && ZoneIn(t0, z0, EntryBlock(e)) != BLOCK_NULL
    ensures seen[e] == Some(EntryAddr(ZoneIn(t0, z0, EntryBlock(e)), e))
    ensures !Named(dirents, EntryAddr(ZoneIn(t0, z0, EntryBlock(e)), e), filename)
  {
    assert seen[e].Some?;
  }

  /**
   * The index of the last free entry a scan read, or -1 when it read none.
   */
  ghost function LastFree(dirents: map<nat, Dirent>, seen: seq<Option<nat>>): (k: int)
    ensures -1 <= k < |seen|
    ensures k >= 0 ==> seen[k].Some? && Free(dirents, seen[k].value)
    ensures forall e :: k < e < |seen| ==> !(seen[e].Some? && Free(dirents, seen[e].value))
    decreases |seen|
  {
    if |seen| == 0 then -1
    else if seen[|seen| - 1].Some? && Free(dirents, seen[|seen| - 1].value) then |seen| - 1
    else LastFree(dirents, seen[..|seen| - 1])
  }

  /** Entries skipped are not free entries read. */
  lemma {:induction false} LastFreeSkipping(dirents: map<nat, Dirent>, seen: seq<Option<nat>>, k: nat)
    ensures LastFree(dirents, seen + seq(k, _ => None)) == LastFree(dirents, seen)
  {
    if k > 0 {
      var s1 := seen + seq(k - 1, _ => None);
      assert seen + seq(k, _ => None) == s1 + [None];
      assert (s1 + [None])[..|s1|] == s1;
      LastFreeSkipping(dirents, seen, k - 1);
    } else {
      assert seen + seq(k, _ => None) == seen;
    }
  }

  /** Reading one more entry makes it the last free one exactly when it is free. */
  lemma LastFreeReading(dirents: map<nat, Dirent>, seen: seq<Option<nat>>, a: nat)
    ensures LastFree(dirents, seen + [Some(a)]) == if Free(dirents, a) then |seen| else LastFree(dirents, seen)
  {
    assert (seen + [Some(a)])[..|seen|] == seen;
  }

  /** An inode in memory: the struct d_inode returned by minix_inode_read. */
  class MemInode {
    var i_mode: nat
    var i_uid: nat
    var i_size: nat
    var i_time: nat
    var i_gid: nat
    var i_nlinks: nat
    var i_zones: seq<nat>

    ghost predicate Valid()
      reads this
    {
      |i_zones| == NR_ZONES
    }

    /** The record this inode would be written back as. */
    function Value(): Inode
      reads this
      requires Valid()
    {
      DInode(i_mode, i_uid, i_size, i_time, i_gid, i_nlinks, i_zones)
    }

    constructor FromRecord(d: Inode)
      ensures Valid() && Value() == d
    {
      i_mode, i_uid, i_size, i_time := d.i_mode, d.i_uid, d.i_size, d.i_time;
      i_gid, i_nlinks, i_zones := d.i_gid, d.i_nlinks, d.i_zones;
    }
  }

  /** A mounted Minix file system. */
  class Volume {
    /** The device the file system resides on (the driver's fd). */
    const dev: Disk
    var s_magic: nat
    var s_imap_nblocks: nat
    var s_bmap_nblocks: nat
    var s_first_data_block: nat
    var s_max_size: nat
    /** Inode map and zone map; their Length is the size field of the C structures, in bytes. */
    var inodeMap: array<byte>
    var zoneMap: array<byte>

    /** The volume is mounted: a good magic number and bitmaps of the sizes the superblock gives. */
    ghost predicate Valid()
      reads this, dev
    {
      dev.Valid() &&
      inodeMap != zoneMap &&
      s_magic == SUPER_MAGIC &&
      inodeMap.Length == s_imap_nblocks * BLOCK_SIZE &&
      zoneMap.Length == s_bmap_nblocks * BLOCK_SIZE
    }

    /** The superblock as held in memory. */
    function Super(): Superblock
      reads this
    {
      Superblock(s_magic, s_imap_nblocks, s_bmap_nblocks, s_first_data_block, s_max_size)
    }

    /** Number of inode numbers the inode map can describe. */
    function InodeLimit(): nat
      reads this
    {
      s_imap_nblocks * BLOCK_SIZE * 8
    }

    /** Byte offset of inode num on this volume. */
    function InodeAddr(num: nat): nat
      reads this
    {
      InodeOffset(s_imap_nblocks, s_bmap_nblocks, num)
    }

    /** The inode number minix_inode_alloc gives to bit `bit` of the inode map, cut to 16 bits. */
    function InodeNumberOf(bit: nat): u16
      reads this
    {
      (InodeTableStart(s_imap_nblocks, s_bmap_nblocks) + bit) % 0x1_0000
    }

    /** What logical block l of a file with these zone pointers maps to on this volume now. */
    ghost function ZoneOf(zones: seq<nat>, l: nat): nat
      reads dev
      requires |zones| == NR_ZONES
    {
      ZoneIn(dev.tables, zones, l)
    }

    /** minix_mount opens the device; the volume is not usable until SuperRead succeeds. */
    constructor Open(dev: Disk)
      ensures this.dev == dev && fresh(inodeMap) && fresh(zoneMap)
    {
      this.dev := dev;
      s_magic, s_imap_nblocks, s_bmap_nblocks, s_first_data_block, s_max_size := 0, 0, 0, 0, 0;
      inodeMap := new byte[0];
      zoneMap := new byte[0];
    }

    /**
     * minix_super_read: reads the superblock from block 1, rejects a bad magic number, then
     * reads the inode map and the zone map that follow it.
     */
    method SuperRead() returns (o: Outcome)
      requires dev.Valid()
      modifies this
      ensures !dev.InRange(SUPER_OFFSET, SUPERBLOCK_SIZE) ==> o == Fail(IoError)
      ensures dev.InRange(SUPER_OFFSET, SUPERBLOCK_SIZE) && dev.SuperAt(SUPER_OFFSET).s_magic != SUPER_MAGIC ==>
                o == Fail(CorruptVolume)
      ensures o.Pass? <==>
                dev.InRange(SUPER_OFFSET, SUPERBLOCK_SIZE) && dev.SuperAt(SUPER_OFFSET).s_magic == SUPER_MAGIC &&
                dev.InRange(IMAP_OFFSET, dev.SuperAt(SUPER_OFFSET).s_imap_nblocks * BLOCK_SIZE) &&
                dev.InRange(ZmapOffset(dev.SuperAt(SUPER_OFFSET).s_imap_nblocks), dev.SuperAt(SUPER_OFFSET).s_bmap_nblocks * BLOCK_SIZE)
      ensures o.Pass? ==> Valid() && fresh(inodeMap) && fresh(zoneMap) && Super() == dev.SuperAt(SUPER_OFFSET)
      ensures o.Pass? ==> inodeMap[..] == dev.BytesAt(IMAP_OFFSET, s_imap_nblocks * BLOCK_SIZE)
      ensures o.Pass? ==> zoneMap[..] == dev.BytesAt(ZmapOffset(s_imap_nblocks), s_bmap_nblocks * BLOCK_SIZE)
    {
      if !dev.InRange(SUPER_OFFSET, SUPERBLOCK_SIZE) {
        return Fail(IoError);
      }
      var sb := dev.SuperAt(SUPER_OFFSET);
      s_magic, s_imap_nblocks, s_bmap_nblocks := sb.s_magic, sb.s_imap_nblocks, sb.s_bmap_nblocks;
      s_first_data_block, s_max_size := sb.s_first_data_block, sb.s_max_size;
      if s_magic != SUPER_MAGIC {
        return Fail(CorruptVolume);
      }
      var isize := s_imap_nblocks * BLOCK_SIZE;
      if !dev.InRange(IMAP_OFFSET, isize) {
        return Fail(IoError);
      }
      var ibits := dev.BytesAt(IMAP_OFFSET, isize);
      inodeMap := new byte[isize](k requires 0 <= k < isize => ibits[k]);
      var zoff := ZmapOffset(s_imap_nblocks);
      var zsize := s_bmap_nblocks * BLOCK_SIZE;
      if !dev.InRange(zoff, zsize) {
        return Fail(IoError);
      }
      var zbits := dev.BytesAt(zoff, zsize);
      zoneMap := new byte[zsize](k requires 0 <= k < zsize => zbits[k]);
      return Pass;
    }

    /**
     * minix_super_write, as the model performs it: writes the superblock back to block 1 and
     * the bitmaps held in memory right after it, where SuperRead reads them.
     */
    method SuperWrite() returns (o: Outcome)
      requires Valid()
      modifies dev`supers, dev`bytes
      ensures o.Pass? <==> dev.InRange(ZmapOffset(s_imap_nblocks), zoneMap.Length)
      /* the three records are written, and nothing else */
      ensures o.Pass? ==>
                dev.supers == old(dev.supers)[SUPER_OFFSET := Super()] &&
                dev.bytes == old(dev.bytes)[IMAP_OFFSET := inodeMap[..]][ZmapOffset(s_imap_nblocks) := zoneMap[..]]
      ensures o.Pass? ==> dev.SuperAt(SUPER_OFFSET) == Super()
      ensures o.Pass? ==> dev.BytesAt(IMAP_OFFSET, inodeMap.Length) == inodeMap[..]
      ensures o.Pass? ==> dev.BytesAt(ZmapOffset(s_imap_nblocks), zoneMap.Length) == zoneMap[..]
    {
      if !dev.InRange(SUPER_OFFSET, SUPERBLOCK_SIZE) {
        return Fail(IoError);
      }
      dev.WriteSuper(SUPER_OFFSET, Super());
      if !dev.InRange(IMAP_OFFSET, inodeMap.Length) {
        return Fail(IoError);
      }
      dev.WriteBytes(IMAP_OFFSET, inodeMap[..]);
      var zoff := ZmapOffset(s_imap_nblocks);
      if !dev.InRange(zoff, zoneMap.Length) {
        return Fail(IoError);
      }
      dev.WriteBytes(zoff, zoneMap[..]);
      return Pass;
    }

    /**
     * minix_super_write as the C code has it: before writing the bitmaps it allocates new
     * buffers for them, so what reaches the disk is the content of those new buffers (zero
     * here) and the allocation state held in memory is gone.
     */
    method SuperWriteAsWritten() returns (o: Outcome)
      requires Valid()
      modifies this`inodeMap, this`zoneMap, dev`supers, dev`bytes
      ensures Valid() && fresh(inodeMap) && fresh(zoneMap)
      ensures inodeMap.Length == old(inodeMap.Length) && zoneMap.Length == old(zoneMap.Length)
      ensures forall k :: 0 <= k < inodeMap.Length ==> inodeMap[k] == 0
      ensures forall k :: 0 <= k < zoneMap.Length ==> zoneMap[k] == 0
      ensures o.Pass? <==> dev.InRange(ZmapOffset(s_imap_nblocks), zoneMap.Length)
      ensures o.Pass? ==>
                dev.supers == old(dev.supers)[SUPER_OFFSET := Super()] &&
                dev.bytes == old(dev.bytes)[IMAP_OFFSET := inodeMap[..]][ZmapOffset(s_imap_nblocks) := zoneMap[..]]
      ensures o.Pass? ==> dev.SuperAt(SUPER_OFFSET) == Super()
      ensures o.Pass? ==> dev.BytesAt(IMAP_OFFSET, inodeMap.Length) == inodeMap[..]
      ensures o.Pass? ==> dev.BytesAt(ZmapOffset(s_imap_nblocks), zoneMap.Length) == zoneMap[..]
    {
      if !dev.InRange(SUPER_OFFSET, SUPERBLOCK_SIZE) {
        inodeMap := new byte[inodeMap.Length](_ => 0);
        zoneMap := new byte[zoneMap.Length](_ => 0);
        return Fail(IoError);
      }
      dev.WriteSuper(SUPER_OFFSET, Super());
      inodeMap := new byte[s_imap_nblocks * BLOCK_SIZE](_ => 0);
      zoneMap := new byte[s_bmap_nblocks * BLOCK_SIZE](_ => 0);
      if !dev.InRange(IMAP_OFFSET, inodeMap.Length) {
        return Fail(IoError);
      }
      dev.WriteBytes(IMAP_OFFSET, inodeMap[..]);
      var zoff := ZmapOffset(s_imap_nblocks);
      if !dev.InRange(zoff, zoneMap.Length) {
        return Fail(IoError);
      }
      dev.WriteBytes(zoff, zoneMap[..]);
      return Pass;
    }

    /** minix_umount: writes the superblock and the bitmaps back (closing the device is not modelled). */
    method Umount() returns (o: Outcome)
      requires Valid()
      modifies dev`supers, dev`bytes
      ensures o.Pass? <==> dev.InRange(ZmapOffset(s_imap_nblocks), zoneMap.Length)
      /* the three records are written, and nothing else */
      ensures o.Pass? ==>
                dev.supers == old(dev.supers)[SUPER_OFFSET := Super()] &&
                dev.bytes == old(dev.bytes)[IMAP_OFFSET := inodeMap[..]][ZmapOffset(s_imap_nblocks) := zoneMap[..]]
      ensures o.Pass? ==> dev.SuperAt(SUPER_OFFSET) == Super()
      ensures o.Pass? ==> dev.BytesAt(IMAP_OFFSET, inodeMap.Length) == inodeMap[..]
      ensures o.Pass? ==> dev.BytesAt(ZmapOffset(s_imap_nblocks), zoneMap.Length) == zoneMap[..]
    {
      o := SuperWrite();
    }

    /**
     * minix_inode_read: rejects an inode number the inode map cannot hold, then reads the
     * record at the inode's offset into a new in-memory inode.
     */
    method InodeRead(num: u16) returns (r: Result<MemInode>)
      requires Valid()
      ensures num >= InodeLimit() ==> r == Err(InvalidInodeNumber)
      ensures num < InodeLimit() && !dev.InRange(InodeAddr(num), INODE_SIZE) ==> r == Err(IoError)
      ensures r.Ok? <==> num < InodeLimit() && dev.InRange(InodeAddr(num), INODE_SIZE)
      ensures r.Ok? ==> fresh(r.value) && r.value.Valid() && r.value.Value() == dev.InodeAt(InodeAddr(num))
    {
      if num >= InodeLimit() {
        return Err(InvalidInodeNumber);
      }
      var offset := InodeAddr(num);
      if !dev.InRange(offset, INODE_SIZE) {
        return Err(IoError);
      }
      var ip := new MemInode.FromRecord(dev.InodeAt(offset));
      return Ok(ip);
    }

    /**
     * minix_inode_write: the same bounds check and offset as InodeRead, then the record is
     * stored there; no other inode of the volume changes.
     */
    method InodeWrite(num: u16, ip: MemInode) returns (o: Outcome)
      requires Valid() && ip.Valid()
      modifies dev`inodes
      ensures num >= InodeLimit() ==> o == Fail(InvalidInodeNumber)
      ensures o.Pass? <==> num < InodeLimit() && dev.InRange(InodeAddr(num), INODE_SIZE)
      ensures o.Pass? ==> dev.inodes == old(dev.inodes)[InodeAddr(num) := ip.Value()]
      ensures o.Pass? ==> dev.InodeAt(InodeAddr(num)) == ip.Value()
      ensures o.Fail? ==> dev.inodes == old(dev.inodes)
      ensures forall m: u16 :: m != num ==> dev.InodeAt(InodeAddr(m)) == old(dev.InodeAt(InodeAddr(m)))
    {
      if num >= InodeLimit() {
        return Fail(InvalidInodeNumber);
      }
      var offset := InodeAddr(num);
      if !dev.InRange(offset, INODE_SIZE) {
        return Fail(IoError);
      }
      dev.WriteInode(offset, ip.Value());
      forall m: u16 | m != num
        ensures dev.InodeAt(InodeAddr(m)) == old(dev.InodeAt(InodeAddr(m)))
      {
        InodeOffsetInjective(s_imap_nblocks, s_bmap_nblocks, m, num);
      }
      return Pass;
    }

    /**
     * minix_block_alloc: takes the lowest free bit of the zone map, marks it and returns the
     * zone it stands for, counted from the first data block.
     */
    method BlockAlloc() returns (r: Result<nat>)
      requires Valid()
      modifies zoneMap
      ensures Full(old(zoneMap[..])) ==> r == Err(ZoneMapExhausted) && zoneMap[..] == old(zoneMap[..])
      ensures !Full(old(zoneMap[..])) ==>
                var bit := LowestClear(old(zoneMap[..])).value;
                r == Ok(s_first_data_block + bit) && zoneMap[..] == SetBit(old(zoneMap[..]), bit)
    {
      var bit := FirstFree(zoneMap);
      if bit.None? {
        return Err(ZoneMapExhausted);
      }
      Set(zoneMap, bit.value);
      return Ok(s_first_data_block + bit.value);
    }

    /**
     * minix_inode_alloc: takes the lowest free bit of the inode map, marks it, and writes a
     * fresh inode with the given mode and owner under the number that bit stands for: size,
     * time and zone pointers cleared, one link.
     */
    method InodeAlloc(mode: nat, uid: nat, gid: nat) returns (r: Result<u16>)
      requires Valid()
      modifies inodeMap, dev`inodes
      ensures Full(old(inodeMap[..])) ==> r == Err(InodeMapExhausted) && inodeMap[..] == old(inodeMap[..]) && dev.inodes == old(dev.inodes)
      ensures !Full(old(inodeMap[..])) ==>
                var bit := LowestClear(old(inodeMap[..])).value;
                var num := InodeNumberOf(bit);
                inodeMap[..] == SetBit(old(inodeMap[..]), bit) &&
                (r.Ok? <==> num < InodeLimit() && dev.InRange(InodeAddr(num), INODE_SIZE)) &&
                (num >= InodeLimit() ==> r == Err(InvalidInodeNumber))
      ensures r.Ok? ==>
                r.value == InodeNumberOf(LowestClear(old(inodeMap[..])).value) &&
                dev.inodes == old(dev.inodes)[InodeAddr(r.value) := DInode(mode, uid, 0, 0, gid, 1, seq(NR_ZONES, _ => BLOCK_NULL))]
    {
      ghost var before := inodeMap[..];
      var bit := FirstFree(inodeMap);
      if bit.None? {
        return Err(InodeMapExhausted);
      }
      Set(inodeMap, bit.value);
      var num := InodeNumberOf(bit.value);
      assert inodeMap[..] == SetBit(before, bit.value);

      var rd := InodeRead(num);
      if rd.Err? {
        return Err(rd.error);
      }
      var ip: MemInode := rd.value;
      ip.i_mode, ip.i_uid, ip.i_size, ip.i_time, ip.i_gid, ip.i_nlinks := mode, uid, 0, 0, gid, 1;
      var i := 0;
      while i < NR_ZONES
        invariant 0 <= i <= NR_ZONES && ip.Valid()
        invariant forall z :: 0 <= z < i ==> ip.i_zones[z] == BLOCK_NULL
        invariant ip.i_mode == mode && ip.i_uid == uid && ip.i_size == 0
        invariant ip.i_time == 0 && ip.i_gid == gid && ip.i_nlinks == 1
        modifies ip`i_zones
      {
        ip.i_zones := ip.i_zones[i := BLOCK_NULL];
        i := i + 1;
      }
      assert ip.i_zones == seq(NR_ZONES, _ => BLOCK_NULL);
      var wr := InodeWrite(num, ip);
      if wr.Fail? {
        return Err(wr.error);
      }
      return Ok(num);
    }

    /** BlockMap left the file's zone pointers, the zone map and the indirect blocks as they were. */
    twostate predicate Untouched(ip: MemInode)
      reads this, ip, zoneMap, dev
    {
      ip.i_zones == old(ip.i_zones) && zoneMap[..] == old(zoneMap[..]) && dev.tables == old(dev.tables)
    }

    /** The direct-zone branch of minix_block_map, for logical block l. */
    method MapDirect(ip: MemInode, l: nat, make: bool) returns (r: Result<nat>)
      requires Valid() && ip.Valid() && l < NR_ZONES_DIRECT
      modifies ip`i_zones, zoneMap
      ensures ip.Valid()
      ensures !(old(ip.i_zones[l]) == BLOCK_NULL && make) ==> r == Ok(ip.i_zones[l]) && Untouched(ip)
      ensures old(ip.i_zones[l]) == BLOCK_NULL && make ==>
                if Full(old(zoneMap[..])) then r == Err(ZoneMapExhausted) && Untouched(ip)
                else
                  var bit := LowestClear(old(zoneMap[..])).value;
                  r == Ok(s_first_data_block + bit) && zoneMap[..] == SetBit(old(zoneMap[..]), bit) &&
                  ip.i_zones == old(ip.i_zones)[l := r.value]
    {
      if ip.i_zones[l] == BLOCK_NULL && make {
        var phys := BlockAlloc();
        if phys.Err? {
          return Err(phys.error);
        }
        ip.i_zones := ip.i_zones[l := phys.value];
      }
      return Ok(ip.i_zones[l]);
    }

    /**
     * The first half of the single-indirect branch of minix_block_map: the indirect block is
     * allocated when missing and wanted, and the branch goes on only when it is then mapped.
     */
    method MapIndirect(ip: MemInode, make: bool) returns (r: Result<nat>)
      requires Valid() && ip.Valid()
      modifies ip`i_zones, zoneMap
      ensures Valid() && ip.Valid()
      ensures ip.i_zones == old(ip.i_zones)[ZONE_SINGLE := ip.i_zones[ZONE_SINGLE]]
      ensures r.Ok? ==> r.value == ip.i_zones[ZONE_SINGLE] && r.value != BLOCK_NULL
      ensures old(ip.i_zones[ZONE_SINGLE]) != BLOCK_NULL ==> r == Ok(old(ip.i_zones[ZONE_SINGLE])) && Untouched(ip)
      ensures old(ip.i_zones[ZONE_SINGLE]) == BLOCK_NULL && !make ==> r == Err(InvalidOffset) && Untouched(ip)
      ensures old(ip.i_zones[ZONE_SINGLE]) == BLOCK_NULL && make ==>
                if Full(old(zoneMap[..])) then r == Err(ZoneMapExhausted) && Untouched(ip)
                else
                  var bit := LowestClear(old(zoneMap[..])).value;
                  zoneMap[..] == SetBit(old(zoneMap[..]), bit) &&
                  ip.i_zones[ZONE_SINGLE] == s_first_data_block + bit &&
                  r == if s_first_data_block + bit == BLOCK_NULL then Err(InvalidOffset) else Ok(s_first_data_block + bit)
    {
      if ip.i_zones[ZONE_SINGLE] == BLOCK_NULL && make {
        var phys := BlockAlloc();
        if phys.Err? {
          return Err(phys.error);
        }
        ip.i_zones := ip.i_zones[ZONE_SINGLE := phys.value];
      }
      var phys := ip.i_zones[ZONE_SINGLE];
      if phys == BLOCK_NULL {
        return Err(InvalidOffset);
      }
      return Ok(phys);
    }

    /**
     * The second half: slot `slot` of the indirect block at block phys is read, filled with a
     * new block when empty and wanted, and the indirect block written back only then.
     */
    method MapSlot(ip: MemInode, phys: nat, slot: nat, make: bool) returns (r: Result<nat>)
      requires Valid() && ip.Valid() && slot < NR_SINGLE
      requires phys == ip.i_zones[ZONE_SINGLE] && phys != BLOCK_NULL
      modifies zoneMap, dev`tables
      ensures Valid()
      ensures !dev.InRange(phys * BLOCK_SIZE, BLOCK_SIZE) ==> r == Err(IoError) && Untouched(ip)
      ensures dev.InRange(phys * BLOCK_SIZE, BLOCK_SIZE) ==>
                var found := TableIn(old(dev.tables), phys * BLOCK_SIZE)[slot];
                if found != BLOCK_NULL || !make then r == Ok(found) && Untouched(ip)
                else if Full(old(zoneMap[..])) then r == Err(ZoneMapExhausted) && Untouched(ip)
                else
                  var bit := LowestClear(old(zoneMap[..])).value;
                  r == Ok(s_first_data_block + bit) && zoneMap[..] == SetBit(old(zoneMap[..]), bit) &&
                  dev.tables == old(dev.tables)[phys * BLOCK_SIZE := TableIn(old(dev.tables), phys * BLOCK_SIZE)[slot := r.value]]
      ensures Keeps(old(dev.tables), ip.i_zones, dev.tables, ip.i_zones)
      ensures r.Ok? ==> r.value == ZoneOf(ip.i_zones, NR_ZONES_DIRECT + slot)
      ensures !make ==> Untouched(ip)
      ensures dev.tables != old(dev.tables) ==>
                r.Ok? && TableIn(old(dev.tables), phys * BLOCK_SIZE)[slot] == BLOCK_NULL &&
                dev.tables == old(dev.tables)[phys * BLOCK_SIZE := TableIn(old(dev.tables), phys * BLOCK_SIZE)[slot := r.value]]
      ensures r.Ok? && make && s_first_data_block != BLOCK_NULL ==> r.value != BLOCK_NULL
    {
      var toff := phys * BLOCK_SIZE;
      if !dev.InRange(toff, BLOCK_SIZE) {
        return Err(IoError);
      }
      var buf := TableIn(dev.tables, toff);
      if buf[slot] == BLOCK_NULL && make {
        var z := BlockAlloc();
        if z.Err? {
          return Err(z.error);
        }
        KeepsFillSlot(dev.tables, ip.i_zones, slot, z.value);
        buf := buf[slot := z.value];
        dev.WriteTable(toff, buf);
      }
      return Ok(buf[slot]);
    }

    /**
     * The single-indirect branch of minix_block_map, for slot `slot` of the indirect block:
     * the indirect block is allocated first when missing, then the slot, and the indirect
     * block is written back only when the slot was filled.
     */
    method MapSingle(ip: MemInode, slot: nat, make: bool) returns (r: Result<nat>)
      requires Valid() && ip.Valid() && slot < NR_SINGLE
      modifies ip`i_zones, zoneMap, dev`tables
      ensures Valid() && ip.Valid()
      ensures r.Ok? ==> r.value == ZoneOf(ip.i_zones, NR_ZONES_DIRECT + slot)
      ensures old(ZoneOf(ip.i_zones, NR_ZONES_DIRECT + slot)) != BLOCK_NULL ==>
                r == Ok(old(ZoneOf(ip.i_zones, NR_ZONES_DIRECT + slot))) && Untouched(ip)
      ensures !make ==> Untouched(ip)
      ensures !make && ip.i_zones[ZONE_SINGLE] == BLOCK_NULL ==> r == Err(InvalidOffset)
      ensures Keeps(old(dev.tables), old(ip.i_zones), dev.tables, ip.i_zones)
      ensures forall z :: 0 <= z < NR_ZONES && z != ZONE_SINGLE ==> ip.i_zones[z] == old(ip.i_zones[z])
      ensures dev.tables != old(dev.tables) ==>
                var t := ip.i_zones[ZONE_SINGLE] * BLOCK_SIZE;
                r.Ok? && old(ZoneOf(ip.i_zones, NR_ZONES_DIRECT + slot)) == BLOCK_NULL &&
                dev.tables == old(dev.tables)[t := old(TableIn(dev.tables, t))[slot := r.value]]
      ensures r.Ok? && make && s_first_data_block != BLOCK_NULL ==> r.value != BLOCK_NULL
      /* with the indirect block in place, a missing slot is filled with the lowest free zone */
      ensures make && old(ip.i_zones[ZONE_SINGLE]) != BLOCK_NULL && old(ZoneOf(ip.i_zones, NR_ZONES_DIRECT + slot)) == BLOCK_NULL ==>
                (Full(old(zoneMap[..])) ==> r.Err?) &&
                (r.Ok? ==> Allocated(old(zoneMap[..]), zoneMap[..], s_first_data_block, r.value))
      /* a missing indirect block is the lowest free zone, and its slot is taken as it holds it or filled */
      ensures make && old(ip.i_zones[ZONE_SINGLE]) == BLOCK_NULL ==>
                (Full(old(zoneMap[..])) ==> r == Err(ZoneMapExhausted) && Untouched(ip)) &&
                (r.Ok? ==>
                   AllocatedIndirect(old(zoneMap[..]), zoneMap[..], old(dev.tables), s_first_data_block, ip.i_zones[ZONE_SINGLE], slot, r.value))
    {
      ghost var z0, m0 := ip.i_zones, zoneMap[..];
      var phys := MapIndirect(ip, make);
      if phys.Err? {
        return Err(phys.error);
      }
      ghost var t1, z1, m1 := dev.tables, ip.i_zones, zoneMap[..];
      if z0[ZONE_SINGLE] == BLOCK_NULL {
        KeepsFillPointer(t1, z0, ZONE_SINGLE, z1[ZONE_SINGLE]);
        assert make && !Full(m0) && phys.value == s_first_data_block + LowestClear(m0).value;
        assert m1 == SetBit(m0, LowestClear(m0).value);
      } else {
        assert z1 == z0 && m1 == m0;
      }
      r := MapSlot(ip, phys.value, slot, make);
      assert old(ZoneOf(ip.i_zones, NR_ZONES_DIRECT + slot)) == ZoneIn(t1, z0, NR_ZONES_DIRECT + slot);
      KeepsTrans(old(dev.tables), old(ip.i_zones), t1, z1, dev.tables, ip.i_zones);
    }

    /**
     * minix_block_map: the physical block holding byte off of the file. A missing block is
     * allocated when create is set or the offset lies inside the file; in the single-indirect
     * range the indirect block itself is allocated first when missing (and its content used
     * as found), and only an updated indirect block is written back.
     */
    method BlockMap(ip: MemInode, off: nat, create: bool) returns (r: Result<nat>)
      requires Valid() && ip.Valid()
      modifies ip`i_zones, zoneMap, dev`tables
      ensures Valid() && ip.Valid()
      ensures off >= s_max_size ==> r == Err(FileTooLarge) && Untouched(ip)
      ensures off < s_max_size && off / BLOCK_SIZE >= NR_ZONES_DIRECT + NR_SINGLE ==>
                r == Err(UnsupportedIndirection) && Untouched(ip)
      /* a result is what the file maps that offset to afterwards */
      ensures r.Ok? ==> r.value == ZoneOf(ip.i_zones, off / BLOCK_SIZE)
      /* an offset that is already mapped is answered without any change */
      ensures off < s_max_size && old(ZoneOf(ip.i_zones, off / BLOCK_SIZE)) != BLOCK_NULL ==>
                r == Ok(old(ZoneOf(ip.i_zones, off / BLOCK_SIZE))) && Untouched(ip)
      /* without create, an offset at or past the end of the file changes nothing */
      ensures !create && off >= old(ip.i_size) ==> Untouched(ip)
      ensures !create && off >= old(ip.i_size) && off < s_max_size && off / BLOCK_SIZE < NR_ZONES_DIRECT ==>
                r == Ok(ip.i_zones[off / BLOCK_SIZE])
      ensures !create && off >= old(ip.i_size) && off < s_max_size &&
              NR_ZONES_DIRECT <= off / BLOCK_SIZE < NR_ZONES_DIRECT + NR_SINGLE && ip.i_zones[ZONE_SINGLE] == BLOCK_NULL ==>
                r == Err(InvalidOffset)
      /* no block that was mapped is ever remapped */
      ensures Keeps(old(dev.tables), old(ip.i_zones), dev.tables, ip.i_zones)
      /* a missing direct block is the lowest free zone, or the zone map is exhausted */
      ensures off < s_max_size && off / BLOCK_SIZE < NR_ZONES_DIRECT && old(ip.i_zones[off / BLOCK_SIZE]) == BLOCK_NULL &&
              (create || off < old(ip.i_size)) ==>
                dev.tables == old(dev.tables) &&
                if Full(old(zoneMap[..])) then r == Err(ZoneMapExhausted) && Untouched(ip)
                else
                  var bit := LowestClear(old(zoneMap[..])).value;
                  r == Ok(s_first_data_block + bit) && zoneMap[..] == SetBit(old(zoneMap[..]), bit) &&
                  ip.i_zones == old(ip.i_zones)[off / BLOCK_SIZE := r.value]
      /* in the single-indirect range, with the indirect block in place, a missing block is the lowest free zone */
      ensures off < s_max_size && NR_ZONES_DIRECT <= off / BLOCK_SIZE < NR_ZONES_DIRECT + NR_SINGLE &&
              (create || off < old(ip.i_size)) && old(ip.i_zones[ZONE_SINGLE]) != BLOCK_NULL &&
              old(ZoneOf(ip.i_zones, off / BLOCK_SIZE)) == BLOCK_NULL ==>
                (Full(old(zoneMap[..])) ==> r.Err?) &&
                (r.Ok? ==> Allocated(old(zoneMap[..]), zoneMap[..], s_first_data_block, r.value))
      /* and a missing indirect block is the lowest free zone, its slot taken as it holds it or filled */
      ensures off < s_max_size && NR_ZONES_DIRECT <= off / BLOCK_SIZE < NR_ZONES_DIRECT + NR_SINGLE &&
              (create || off < old(ip.i_size)) && old(ip.i_zones[ZONE_SINGLE]) == BLOCK_NULL ==>
                (Full(old(zoneMap[..])) ==> r == Err(ZoneMapExhausted) && Untouched(ip)) &&
                (r.Ok? ==>
                   AllocatedIndirect(old(zoneMap[..]), zoneMap[..], old(dev.tables), s_first_data_block,
                                     ip.i_zones[ZONE_SINGLE], off / BLOCK_SIZE - NR_ZONES_DIRECT, r.value))
      /* only the pointer the offset goes through may change */
      ensures off / BLOCK_SIZE < NR_ZONES_DIRECT ==>
                forall z :: 0 <= z < NR_ZONES && z != off / BLOCK_SIZE ==> ip.i_zones[z] == old(ip.i_zones[z])
      ensures NR_ZONES_DIRECT <= off / BLOCK_SIZE ==>
                forall z :: 0 <= z < NR_ZONES && z != ZONE_SINGLE ==> ip.i_zones[z] == old(ip.i_zones[z])
      /* the indirect block is written only to record a newly allocated slot */
      ensures dev.tables != old(dev.tables) ==>
                var t := ip.i_zones[ZONE_SINGLE] * BLOCK_SIZE;
                r.Ok? && NR_ZONES_DIRECT <= off / BLOCK_SIZE && old(ZoneOf(ip.i_zones, off / BLOCK_SIZE)) == BLOCK_NULL &&
                dev.tables == old(dev.tables)[t := old(TableIn(dev.tables, t))[off / BLOCK_SIZE - NR_ZONES_DIRECT := r.value]]
      /* on a volume whose data zones start past block 0, a forced mapping is never BLOCK_NULL */
      ensures r.Ok? && (create || off < old(ip.i_size)) && s_first_data_block != BLOCK_NULL ==> r.value != BLOCK_NULL
    {
      var logic := off / BLOCK_SIZE;
      if off >= s_max_size {
        return Err(FileTooLarge);
      }
      var make := create || off < ip.i_size;
      if logic < NR_ZONES_DIRECT {
        r := MapDirect(ip, logic, make);
        return;
      }
      if logic - NR_ZONES_DIRECT < NR_SINGLE {
        var slot := logic - NR_ZONES_DIRECT;
        r := MapSingle(ip, slot, make);
        return;
      }
      return Err(UnsupportedIndirection);
    }

    /**
     * The scan's move to the block holding entry i: blk = minix_block_map(ip, i * DIRENT_SIZE,
     * false). It keeps every mapping, hence the entries already read where they were.
     */
    method NextBlock(ip: MemInode, i: nat, ghost seen: seq<Option<nat>>, ghost filename: seq<char>) returns (m: Result<nat>)
      requires Valid() && ip.Valid() && Read(dev.dirents, dev.tables, ip.i_zones, seen, filename)
      modifies ip`i_zones, zoneMap, dev`tables
      ensures Valid() && ip.Valid()
      ensures Keeps(old(dev.tables), old(ip.i_zones), dev.tables, ip.i_zones)
      ensures Read(dev.dirents, dev.tables, ip.i_zones, seen, filename)
      ensures m.Ok? ==> m.value == ZoneIn(dev.tables, ip.i_zones, EntryBlock(i))
    {
      m := BlockMap(ip, i * DIRENT_SIZE, false);
      EntryByteOffset(i);
      ReadKept(dev.dirents, old(dev.tables), old(ip.i_zones), dev.tables, ip.i_zones, seen, filename);
    }

    /**
     * The search loop of dirent_search: scans the nentries = i_size / DIRENT_SIZE entries of
     * directory ip block by block, skipping unmapped blocks, and stops at the first entry in
     * use whose name agrees with filename on MINIX_NAME_MAX characters. Moving to a block
     * maps it without create, so a block inside the directory's size is allocated if missing.
     * seen records, entry by entry, the address each entry was read at, or None for entries
     * whose block was unmapped. With more == false the search is over and r is its answer
     * (an error, -1 for a name found while creating, or the entry found, which is entry
     * number |seen|); with more == true every entry has been scanned, none carries the name,
     * and entry is the last free entry read, or -1.
     */
    method Scan(ip: MemInode, nentries: nat, filename: seq<char>, create: bool)
      returns (r: Result<int>, more: bool, entry: int, ghost seen: seq<Option<nat>>)
      requires Valid() && ip.Valid() && nentries == ip.i_size / DIRENT_SIZE
      modifies ip`i_zones, zoneMap, dev`tables
      ensures Valid() && ip.Valid()
      ensures |seen| <= nentries
      ensures Keeps(old(dev.tables), old(ip.i_zones), dev.tables, ip.i_zones)
      /* every entry read was at its place in its block, and did not carry the name */
      ensures Read(dev.dirents, dev.tables, ip.i_zones, seen, filename)
      /* entries skipped were in blocks that were not mapped when the scan began */
      ensures Skipped(old(dev.tables), old(ip.i_zones), seen)
      ensures more ==> r.Ok? && |seen| == nentries && entry == LastFree(dev.dirents, seen)
      /* the scan stopped early exactly at an entry carrying the name */
      ensures !more && r.Ok? ==>
                var b := ZoneIn(dev.tables, ip.i_zones, EntryBlock(|seen|));
                |seen| < nentries && b != BLOCK_NULL &&
                Named(dev.dirents, EntryAddr(b, |seen|), filename) &&
                r.value == (if create then -1 else EntryAddr(b, |seen|))
    {
      var i := 0;
      entry := -1;
      var blk := ip.i_zones[0];
      ghost var T0, Z0 := dev.tables, ip.i_zones;
      seen := [];
      while i < nentries
        invariant Valid() && ip.Valid() && |seen| == (if i < nentries then i else nentries)
        invariant i < nentries ==> i % DIRENTS_PER_BLOCK == 0 && blk == ZoneIn(dev.tables, ip.i_zones, EntryBlock(i))
        invariant Keeps(T0, Z0, dev.tables, ip.i_zones) && Skipped(T0, Z0, seen)
        invariant Read(dev.dirents, dev.tables, ip.i_zones, seen, filename) && entry == LastFree(dev.dirents, seen)
        decreases nentries - i
      {
        var stop;
        ghost var t0, z0 := dev.tables, ip.i_zones;
        r, stop, i, blk, entry, seen := ScanStep(ip, nentries, filename, create, i, blk, entry, seen, T0, Z0);
        if stop {
          return r, false, entry, seen;
        }
      }
      return Ok(-1), true, entry, seen;
    }

    /**
     * One round of the search loop of dirent_search, from the first entry i of a block that
     * the directory maps to blk: skip the block when it is unmapped, otherwise read its
     * entries; then, unless the directory has ended after a block read, map the next block.
     * With stop the search is over and r is its answer.
     */
    method ScanStep(ip: MemInode, nentries: nat, filename: seq<char>, create: bool,
                    i0: nat, blk0: nat, entry0: int, ghost seen0: seq<Option<nat>>,
                    ghost T0: map<nat, seq<nat>>, ghost Z0: seq<nat>)
      returns (r: Result<int>, stop: bool, i: nat, blk: nat, entry: int, ghost seen: seq<Option<nat>>)
      requires Valid() && ip.Valid() && |Z0| == NR_ZONES && i0 < nentries && |seen0| == i0
      requires i0 % DIRENTS_PER_BLOCK == 0 && blk0 == ZoneIn(dev.tables, ip.i_zones, EntryBlock(i0))
      requires Keeps(T0, Z0, dev.tables, ip.i_zones) && Skipped(T0, Z0, seen0)
      requires Read(dev.dirents, dev.tables, ip.i_zones, seen0, filename) && entry0 == LastFree(dev.dirents, seen0)
      modifies ip`i_zones, zoneMap, dev`tables
      ensures Valid() && ip.Valid() && (!stop ==> i0 < i)
      ensures Keeps(T0, Z0, dev.tables, ip.i_zones)
      ensures Read(dev.dirents, dev.tables, ip.i_zones, seen, filename) && Skipped(T0, Z0, seen)
      ensures !stop ==>
                |seen| == (if i < nentries then i else nentries) && entry == LastFree(dev.dirents, seen) &&
                (i < nentries ==> i % DIRENTS_PER_BLOCK == 0 && blk == ZoneIn(dev.tables, ip.i_zones, EntryBlock(i)))
      ensures stop ==> |seen| <= nentries
      ensures stop && r.Ok? ==>
                var b := ZoneIn(dev.tables, ip.i_zones, EntryBlock(|seen|));
                |seen| < nentries && b != BLOCK_NULL && Named(dev.dirents, EntryAddr(b, |seen|), filename) &&
                r.value == (if create then -1 else EntryAddr(b, |seen|))
    {
      i, blk, entry, seen := i0, blk0, entry0, seen0;
      if blk == BLOCK_NULL {
        /* skip a block that is not mapped */
        var k := if nentries - i < DIRENTS_PER_BLOCK then nentries - i else DIRENTS_PER_BLOCK;
        SkipStep(dev.dirents, T0, Z0, dev.tables, ip.i_zones, seen, filename, k);
        seen := seen + seq(k, _ => None);
        i := i + DIRENTS_PER_BLOCK;
      } else {
        /* read the entries of this block */
        BlockOfEntries(i);
        r, stop, i, entry, seen := ScanBlock(blk, i, nentries, filename, create, entry, seen, dev.tables, ip.i_zones);
        if stop {
          return;
        }
        SkippedReadingBlock(T0, Z0, seen0, seen);
        if i >= nentries {
          return Ok(-1), false, i, blk, entry, seen;
        }
      }
      ghost var t0, z0 := dev.tables, ip.i_zones;
      var m := NextBlock(ip, i, seen, filename);
      KeepsTrans(T0, Z0, t0, z0, dev.tables, ip.i_zones);
      if m.Err? {
        return Err(m.error), true, i, blk, entry, seen;
      }
      blk := m.value;
      r, stop := Ok(-1), false;
    }

    /**
     * The part of the search loop of dirent_search that reads the entries of one mapped
     * block blk, from its first entry `start`, at base blk * BLOCK_SIZE plus off, until the
     * block or the directory ends or an entry in use carries the name. With stop the search
     * is over and r is its answer; otherwise i is the entry after the last one read, and
     * entry and seen are updated as the search loop updates them.
     */
    method ScanBlock(blk: nat, start: nat, nentries: nat, filename: seq<char>, create: bool,
                     entry0: int, ghost seen0: seq<Option<nat>>, ghost tables: map<nat, seq<nat>>, ghost zones: seq<nat>)
      returns (r: Result<int>, stop: bool, i: nat, entry: int, ghost seen: seq<Option<nat>>)
      requires |zones| == NR_ZONES && blk != BLOCK_NULL && blk == ZoneIn(tables, zones, EntryBlock(start))
      requires start % DIRENTS_PER_BLOCK == 0 && start < nentries && |seen0| == start
      requires Read(dev.dirents, tables, zones, seen0, filename) && entry0 == LastFree(dev.dirents, seen0)
      ensures Read(dev.dirents, tables, zones, seen, filename) && entry == LastFree(dev.dirents, seen)
      ensures |seen| == i && seen0 <= seen
      ensures forall e :: |seen0| <= e < |seen| ==> seen[e].Some?
      ensures stop ==> i < nentries
      ensures !stop ==> i <= nentries && (i < nentries ==> i == start + DIRENTS_PER_BLOCK)
      ensures stop && r.Ok? ==>
                i < start + DIRENTS_PER_BLOCK &&
                Named(dev.dirents, EntryAddr(blk, i), filename) &&
                r.value == (if create then -1 else EntryAddr(blk, i))
      ensures stop && r.Ok? ==> EntryBlock(i) == EntryBlock(start)
    {
      i, entry, seen := start, entry0, seen0;
      var base := blk * BLOCK_SIZE;
      var off := 0;
      while i < nentries && off < BLOCK_SIZE
        invariant start <= i <= start + DIRENTS_PER_BLOCK && off == (i - start) * DIRENT_SIZE
        invariant |seen| == i && seen0 <= seen
        invariant forall e :: |seen0| <= e < |seen| ==> seen[e].Some?
        invariant Read(dev.dirents, tables, zones, seen, filename) && entry == LastFree(dev.dirents, seen)
        invariant !(i < nentries) ==> i == nentries
      {
        EntryOfBlock(start, i - start);
        var a: nat := base + off;
        assert a == EntryAddr(blk, i);
        if !dev.InRange(a, DIRENT_SIZE) {
          return Err(IoError), true, i, entry, seen;
        }
        var d := dev.DirentAt(a);
        if d.d_ino != INODE_NULL {
          if StrNEq(d.d_name, filename, MINIX_NAME_MAX) {
            if create {
              return Ok(-1), true, i, entry, seen;
            }
            return Ok(a), true, i, entry, seen;
          }
        } else {
          entry := i;
        }
        ReadOneMore(dev.dirents, tables, zones, seen, filename, a);
        LastFreeReading(dev.dirents, seen, a);
        seen := seen + [Some(a)];
        i := i + 1;
        off := off + DIRENT_SIZE;
      }
      return Ok(-1), false, i, entry, seen;
    }

    /**
     * dirent_search: the search loop, then, when creating a name not found, the place for
     * the new entry:
     *   - not creating: the byte address of the entry carrying the name, or -1 when there is none;
     *   - creating: -1 when the name is already there; otherwise the address of the last
     *     free entry read, or, when none was free, of a new entry appended to the directory
     *     (which grows by one entry and gets time 0).
     * seen is as for Scan.
     */
    method DirentSearch(ip: MemInode, filename: seq<char>, create: bool) returns (r: Result<int>, ghost seen: seq<Option<nat>>)
      requires Valid() && ip.Valid()
      modifies ip`i_zones, ip`i_size, ip`i_time, zoneMap, dev`tables
      ensures Valid() && ip.Valid()
      ensures |seen| <= old(ip.i_size) / DIRENT_SIZE
      ensures Keeps(old(dev.tables), old(ip.i_zones), dev.tables, ip.i_zones)
      /* every entry read was at its place in its block, and did not carry the name */
      ensures Read(dev.dirents, dev.tables, ip.i_zones, seen, filename)
      /* entries skipped were in blocks that were not mapped when the search began */
      ensures Skipped(old(dev.tables), old(ip.i_zones), seen)
      /* the search stopped early exactly at an entry carrying the name */
      ensures r.Ok? && |seen| < old(ip.i_size) / DIRENT_SIZE ==>
                var b := ZoneIn(dev.tables, ip.i_zones, EntryBlock(|seen|));
                b != BLOCK_NULL && Named(dev.dirents, EntryAddr(b, |seen|), filename) &&
                r.value == (if create then -1 else EntryAddr(b, |seen|))
      ensures !create ==> ip.i_size == old(ip.i_size) && ip.i_time == old(ip.i_time)
      ensures !create && r.Ok? && |seen| == old(ip.i_size) / DIRENT_SIZE ==> r.value == -1
      /* a new name reuses the last free entry read, if any */
      ensures create && |seen| == old(ip.i_size) / DIRENT_SIZE && LastFree(dev.dirents, seen) >= 0 ==>
                ip.i_size == old(ip.i_size) && ip.i_time == old(ip.i_time) &&
                (LastFree(dev.dirents, seen) * DIRENT_SIZE >= s_max_size ==> r.Err?) &&
                (r.Ok? ==> r.value == seen[LastFree(dev.dirents, seen)].value)
      /* otherwise the directory grows by one entry */
      ensures create && r.Ok? && |seen| == old(ip.i_size) / DIRENT_SIZE && LastFree(dev.dirents, seen) < 0 ==>
                var n := |seen|;
                var b := ZoneIn(dev.tables, ip.i_zones, EntryBlock(n));
                r.value == EntryAddr(b, n) &&
                ip.i_size == old(ip.i_size) + DIRENT_SIZE && ip.i_time == 0 &&
                (s_first_data_block != BLOCK_NULL ==> b != BLOCK_NULL)
    {
      var nentries := ip.i_size / DIRENT_SIZE;
      var more, entry;
      r, more, entry, seen := Scan(ip, nentries, filename, create);
      if !more {
        return;
      }
      if !create {
        return Ok(-1), seen;
      }

      var blk;
      ghost var t0, z0 := dev.tables, ip.i_zones;
      if entry < 0 {
        /* expand the directory */
        entry := nentries;
        var m := BlockMap(ip, entry * DIRENT_SIZE, true);
        EntryByteOffset(entry);
        KeepsTrans(old(dev.tables), old(ip.i_zones), t0, z0, dev.tables, ip.i_zones);
        ReadKept(dev.dirents, t0, z0, dev.tables, ip.i_zones, seen, filename);
        if m.Err? {
          return Err(m.error), seen;
        }
        blk := m.value;
        ip.i_size := ip.i_size + DIRENT_SIZE;
        ip.i_time := 0;
      } else {
        var m := BlockMap(ip, entry * DIRENT_SIZE, false);
        EntryByteOffset(entry);
        KeepsTrans(old(dev.tables), old(ip.i_zones), t0, z0, dev.tables, ip.i_zones);
        ReadKept(dev.dirents, t0, z0, dev.tables, ip.i_zones, seen, filename);
        if m.Err? {
          return Err(m.error), seen;
        }
        blk := m.value;
      }
      r := Ok(EntryAddr(blk, entry));
    }

    /**
     * dir_search: the inode number filename has in directory dip, or INODE_NULL when no
     * entry carries that name; dip must be a directory.
     */
    method DirSearch(dip: MemInode, filename: seq<char>) returns (r: Result<nat>, ghost seen: seq<Option<nat>>)
      requires Valid() && dip.Valid()
      modifies dip`i_zones, dip`i_size, dip`i_time, zoneMap, dev`tables
      ensures Valid() && dip.Valid()
      ensures dip.i_size == old(dip.i_size) && dip.i_time == old(dip.i_time)
      ensures !IsDir(dip.i_mode) ==> r == Err(NotADirectory) && Untouched(dip)
      ensures |seen| <= dip.i_size / DIRENT_SIZE
      ensures Keeps(old(dev.tables), old(dip.i_zones), dev.tables, dip.i_zones)
      ensures Read(dev.dirents, dev.tables, dip.i_zones, seen, filename)
      ensures Skipped(old(dev.tables), old(dip.i_zones), seen)
      /* the name is missing exactly when every entry was gone over */
      ensures r.Ok? ==> (r.value == INODE_NULL <==> |seen| == dip.i_size / DIRENT_SIZE)
      /* otherwise the answer is the inode number of the first entry carrying the name */
      ensures r.Ok? && |seen| < dip.i_size / DIRENT_SIZE ==>
                var a := EntryAddr(ZoneIn(dev.tables, dip.i_zones, EntryBlock(|seen|)), |seen|);
                Named(dev.dirents, a, filename) && r.value == DirentIn(dev.dirents, a).d_ino
    {
      seen := [];
      if !IsDir(dip.i_mode) {
        return Err(NotADirectory), seen;
      }
      var off;
      off, seen := DirentSearch(dip, filename, false);
      if off.Err? {
        return Err(off.error), seen;
      }
      if off.value == -1 {
        return Ok(INODE_NULL), seen;
      }
      if !dev.InRange(off.value, DIRENT_SIZE) {
        return Err(IoError), seen;
      }
      var d := dev.DirentAt(off.value);
      return Ok(d.d_ino), seen;
    }

    /**
     * minix_dirent_add: finds a place for a new entry with dirent_search (creating) and
     * writes the entry there: inode number num and the name cut or padded to
     * MINIX_NAME_MAX characters as strncpy does. slot is the entry's index in the
     * directory and at its byte address.
     */
    method DirentAdd(dip: MemInode, filename: seq<char>, num: u16)
      returns (o: Outcome, ghost seen: seq<Option<nat>>, ghost slot: nat, ghost at: nat)
      requires Valid() && dip.Valid()
      modifies dip`i_zones, dip`i_size, dip`i_time, zoneMap, dev`tables, dev`dirents
      ensures Valid() && dip.Valid()
      ensures Keeps(old(dev.tables), old(dip.i_zones), dev.tables, dip.i_zones)
      ensures |seen| <= old(dip.i_size) / DIRENT_SIZE
      ensures Read(old(dev.dirents), dev.tables, dip.i_zones, seen, filename)
      ensures Skipped(old(dev.tables), old(dip.i_zones), seen)
      /* on failure nothing is written */
      ensures o.Fail? ==> dev.dirents == old(dev.dirents)
      /* otherwise every entry has been gone over, and the new entry is written at its slot */
      ensures o.Pass? ==>
                |seen| == old(dip.i_size) / DIRENT_SIZE && slot < dip.i_size / DIRENT_SIZE &&
                at == EntryAddr(ZoneIn(dev.tables, dip.i_zones, EntryBlock(slot)), slot) &&
                dev.dirents == old(dev.dirents)[at := Dirent(num, StrNCpy(filename, MINIX_NAME_MAX))]
      ensures o.Pass? && (slot < old(dip.i_size) / DIRENT_SIZE || s_first_data_block != BLOCK_NULL) ==>
                ZoneIn(dev.tables, dip.i_zones, EntryBlock(slot)) != BLOCK_NULL
      /* a name already present in a mapped entry is refused */
      ensures o.Pass? ==>
                forall e :: 0 <= e < old(dip.i_size) / DIRENT_SIZE && ZoneIn(old(dev.tables), old(dip.i_zones), EntryBlock(e)) != BLOCK_NULL ==>
                  !Named(old(dev.dirents), EntryAddr(ZoneIn(old(dev.tables), old(dip.i_zones), EntryBlock(e)), e), filename)
      /* the slot is the last free entry, or a new one at the end */
      ensures o.Pass? ==>
                slot == (if LastFree(old(dev.dirents), seen) >= 0 then LastFree(old(dev.dirents), seen) else |seen|)
      /* and the directory grows by one entry exactly when no free entry was found */
      ensures o.Pass? ==>
                dip.i_size == if LastFree(old(dev.dirents), seen) >= 0 then old(dip.i_size) else old(dip.i_size) + DIRENT_SIZE
    {
      var off;
      off, seen := DirentSearch(dip, filename, true);
      slot, at := 0, 0;
      if off.Err? {
        return Fail(off.error), seen, slot, at;
      }
      if off.value == -1 {
        return Fail(DuplicateEntry), seen, slot, at;
      }
      if !dev.InRange(off.value, DIRENT_SIZE) {
        return Fail(IoError), seen, slot, at;
      }
      forall e | 0 <= e < old(dip.i_size) / DIRENT_SIZE && ZoneIn(old(dev.tables), old(dip.i_zones), EntryBlock(e)) != BLOCK_NULL
        ensures !Named(old(dev.dirents), EntryAddr(ZoneIn(old(dev.tables), old(dip.i_zones), EntryBlock(e)), e), filename)
      {
        ScannedAbsent(dev.dirents, old(dev.tables), old(dip.i_zones), dev.tables, dip.i_zones, seen, filename, e);
      }
      var lf := LastFree(dev.dirents, seen);
      slot := if lf >= 0 then lf else |seen|;
      at := off.value;
      dev.WriteDirent(off.value, Dirent(num, StrNCpy(filename, MINIX_NAME_MAX)));
      return Pass, seen, slot, at;
    }

    /**
     * minix_mkdir: allocates a directory inode (mode S_IFDIR, owner and group 0) and enters
     * it in directory dip under filename; the answer is the new inode's number.
     */
    method Mkdir(dip: MemInode, filename: seq<char>) returns (r: Result<u16>, ghost slot: nat, ghost at: nat)
      requires Valid() && dip.Valid()
      modifies inodeMap, dev`inodes, dip`i_zones, dip`i_size, dip`i_time, zoneMap, dev`tables, dev`dirents
      ensures Valid() && dip.Valid()
      ensures !IsDir(dip.i_mode) ==> r == Err(NotADirectory)
      /* a non-directory is refused before anything is allocated or written */
      ensures !IsDir(dip.i_mode) ==>
                inodeMap[..] == old(inodeMap[..]) && dev.inodes == old(dev.inodes) && dev.dirents == old(dev.dirents) &&
                Untouched(dip) && dip.i_size == old(dip.i_size)
      /* no block that was mapped in dip is ever remapped */
      ensures Keeps(old(dev.tables), old(dip.i_zones), dev.tables, dip.i_zones)
      /* the name was in no entry of dip whose block was mapped */
      ensures r.Ok? ==>
                forall e :: 0 <= e < old(dip.i_size) / DIRENT_SIZE && ZoneIn(old(dev.tables), old(dip.i_zones), EntryBlock(e)) != BLOCK_NULL ==>
                  !Named(old(dev.dirents), EntryAddr(ZoneIn(old(dev.tables), old(dip.i_zones), EntryBlock(e)), e), filename)
      ensures r.Ok? ==>
                IsDir(dip.i_mode) && !Full(old(inodeMap[..])) &&
                r.value == InodeNumberOf(LowestClear(old(inodeMap[..])).value)
      /* the inode's bit is taken in the inode map */
      ensures r.Ok? ==> inodeMap[..] == SetBit(old(inodeMap[..]), LowestClear(old(inodeMap[..])).value)
      /* the new inode is an empty directory with one link, and no other inode is written */
      ensures r.Ok? ==>
                dev.inodes == old(dev.inodes)[InodeAddr(r.value) := DInode(S_IFDIR, 0, 0, 0, 0, 1, seq(NR_ZONES, _ => BLOCK_NULL))]
      /* the entry for it sits at entry slot of directory dip, and no other entry is written */
      ensures r.Ok? ==>
                slot < dip.i_size / DIRENT_SIZE &&
                at == EntryAddr(ZoneIn(dev.tables, dip.i_zones, EntryBlock(slot)), slot)
      ensures r.Ok? ==> dev.dirents == old(dev.dirents)[at := Dirent(r.value, StrNCpy(filename, MINIX_NAME_MAX))]
      /* and the entry carries the name, cut as strncpy does */
      ensures r.Ok? && r.value != INODE_NULL ==> Named(dev.dirents, at, filename)
    {
      slot, at := 0, 0;
      if !IsDir(dip.i_mode) {
        return Err(NotADirectory), slot, at;
      }
      var num := InodeAlloc(S_IFDIR, 0, 0);
      if num.Err? {
        return Err(num.error), slot, at;
      }
      var o;
      ghost var seen;
      ghost var inodes, ibits := dev.inodes, inodeMap[..];
      o, seen, slot, at := DirentAdd(dip, filename, num.value);
      assert dev.inodes == inodes && inodeMap[..] == ibits;
      if o.Fail? {
        return Err(o.error), slot, at;
      }
      StrNCpyMatches(filename, MINIX_NAME_MAX);
      return Ok(num.value), slot, at;
    }
  }

  /** minix_mount: opens the device and reads the superblock and bitmaps. */
  method Mount(dev: Disk) returns (r: Result<Volume>)
    requires dev.Valid()
    ensures r.Ok? <==>
              dev.InRange(SUPER_OFFSET, SUPERBLOCK_SIZE) && dev.SuperAt(SUPER_OFFSET).s_magic == SUPER_MAGIC &&
              dev.InRange(IMAP_OFFSET, dev.SuperAt(SUPER_OFFSET).s_imap_nblocks * BLOCK_SIZE) &&
              dev.InRange(ZmapOffset(dev.SuperAt(SUPER_OFFSET).s_imap_nblocks), dev.SuperAt(SUPER_OFFSET).s_bmap_nblocks * BLOCK_SIZE)
    ensures dev.InRange(SUPER_OFFSET, SUPERBLOCK_SIZE) && dev.SuperAt(SUPER_OFFSET).s_magic != SUPER_MAGIC ==>
              r == Err(CorruptVolume)
    ensures r.Ok? ==>
              var v := r.value;
              fresh(v) && fresh(v.inodeMap) && fresh(v.zoneMap) && v.dev == dev && v.Valid() &&
              v.Super() == dev.SuperAt(SUPER_OFFSET) &&
              v.inodeMap[..] == dev.BytesAt(IMAP_OFFSET, v.s_imap_nblocks * BLOCK_SIZE) &&
              v.zoneMap[..] == dev.BytesAt(ZmapOffset(v.s_imap_nblocks), v.s_bmap_nblocks * BLOCK_SIZE)
  {
    var v := new Volume.Open(dev);
    var o := v.SuperRead();
    if o.Fail? {
      return Err(o.error);
    }
    return Ok(v);
  }
}
