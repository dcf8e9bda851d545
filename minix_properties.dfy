/**
 * Properties of the driver that take more than one call: what one operation writes, a later
 * one reads back.
 */
module MinixProperties {
  import opened Wrappers
  import opened MinixLayout
  import opened Bitmap
  import opened Device
  import opened Minix

  /** minix_inode_write(num, ip) followed by minix_inode_read(num) gives back ip's fields. */
  method InodeRoundTrip(v: Volume, num: u16, ip: MemInode) returns (o: Outcome, r: Result<MemInode>)
    requires v.Valid() && ip.Valid()
    modifies v.dev`inodes
    ensures o.Pass? <==> num < v.InodeLimit() && v.dev.InRange(v.InodeAddr(num), INODE_SIZE)
    ensures o.Pass? ==> r.Ok? && r.value.Valid() && r.value.Value() == ip.Value()
    ensures o.Pass? ==> forall m: u16 :: m != num ==> v.dev.InodeAt(v.InodeAddr(m)) == old(v.dev.InodeAt(v.InodeAddr(m)))
  {
    o := v.InodeWrite(num, ip);
    r := v.InodeRead(num);
  }

  /**
   * minix_umount followed by minix_mount of the same device: the superblock and both
   * bitmaps held in memory are what the new mount reads.
   */
  method RemountRoundTrip(v: Volume) returns (o: Outcome, r: Result<Volume>)
    requires v.Valid()
    modifies v.dev`supers, v.dev`bytes
    ensures o.Pass? ==>
              r.Ok? && r.value.Super() == v.Super() &&
              r.value.inodeMap[..] == v.inodeMap[..] && r.value.zoneMap[..] == v.zoneMap[..]
  {
    o := v.Umount();
    r := Mount(v.dev);
  }

  /**
   * The reasoning behind AddThenLookup, on the states alone. An add took the directory from
   * (d0, t0, z0) with n0 entries, all mapped, to (d1, t1, z1) with n1 entries, writing the
   * name under num at entry slot; a lookup then went over seen2 in (t2, z2) and answered
   * found. The answer is num: every entry before the new one lacked the name, and the lookup
   * cannot go past the new entry.
   */
  lemma LookupFindsAdded(d0: map<nat, Dirent>, t0: map<nat, seq<nat>>, z0: seq<nat>, n0: nat,
                         d1: map<nat, Dirent>, t1: map<nat, seq<nat>>, z1: seq<nat>, n1: nat,
                         t2: map<nat, seq<nat>>, z2: seq<nat>, seen2: seq<Option<nat>>,
                         filename: seq<char>, num: u16, slot: nat, at: nat, found: nat)
    requires |z0| == NR_ZONES && |z1| == NR_ZONES && |z2| == NR_ZONES && num != INODE_NULL
    requires forall e :: 0 <= e < n0 ==> ZoneIn(t0, z0, EntryBlock(e)) != BLOCK_NULL
    /* what the add did */
    requires Keeps(t0, z0, t1, z1) && slot <= n0 && slot < n1
    requires ZoneIn(t1, z1, EntryBlock(slot)) != BLOCK_NULL && at == EntryAddr(ZoneIn(t1, z1, EntryBlock(slot)), slot)
    requires d1 == d0[at := Dirent(num, StrNCpy(filename, MINIX_NAME_MAX))]
    requires forall e :: 0 <= e < n0 && ZoneIn(t0, z0, EntryBlock(e)) != BLOCK_NULL ==>
               !Named(d0, EntryAddr(ZoneIn(t0, z0, EntryBlock(e)), e), filename)
    /* what the lookup saw */
    requires Keeps(t1, z1, t2, z2) && Read(d1, t2, z2, seen2, filename) && Skipped(t1, z1, seen2) && |seen2| <= n1
    requires found == INODE_NULL <==> |seen2| == n1
    requires |seen2| < n1 ==>
               var a := EntryAddr(ZoneIn(t2, z2, EntryBlock(|seen2|)), |seen2|);
               Named(d1, a, filename) && found == DirentIn(d1, a).d_ino
    ensures found == num
  {
    /* the new entry carries the name */
    StrNCpyMatches(filename, MINIX_NAME_MAX);
    assert Named(d1, at, filename);
    /* the new entry's block stays where it was */
    ghost var b := ZoneIn(t1, z1, EntryBlock(slot));
    assert ZoneIn(t2, z2, EntryBlock(slot)) == b;
    /* so the lookup cannot go past the new entry without finding it */
    if slot < |seen2| {
      ScannedAbsent(d1, t1, z1, t2, z2, seen2, filename, slot);
      assert false;
    }
    ghost var f := |seen2|;
    ghost var af := EntryAddr(ZoneIn(t2, z2, EntryBlock(f)), f);
    assert Named(d1, af, filename) && found == DirentIn(d1, af).d_ino;
    if f < slot {
      /* an entry before the new one was in the directory and was gone over by the add */
      assert ZoneIn(t0, z0, EntryBlock(f)) != BLOCK_NULL;
      KeepsTrans(t0, z0, t1, z1, t2, z2);
      assert af == EntryAddr(ZoneIn(t0, z0, EntryBlock(f)), f);
      assert !Named(d0, af, filename);
      assert af == at;
    }
  }

  /**
   * Entering a name with minix_dirent_add and then looking it up with dir_search gives the
   * inode number entered. The directory must have none of its blocks unmapped, and the file
   * system a data zone 0 that is never handed out; both hold of directories minix_mkdir
   * builds on a file system laid out as usual.
   */
  method AddThenLookup(v: Volume, dip: MemInode, filename: seq<char>, num: u16) returns (o: Outcome, found: Result<nat>)
    requires v.Valid() && dip.Valid() && IsDir(dip.i_mode)
    requires num != INODE_NULL && v.s_first_data_block != BLOCK_NULL
    requires forall e :: 0 <= e < dip.i_size / DIRENT_SIZE ==> ZoneIn(v.dev.tables, dip.i_zones, EntryBlock(e)) != BLOCK_NULL
    modifies dip`i_zones, dip`i_size, dip`i_time, v.zoneMap, v.dev`tables, v.dev`dirents
    ensures o.Pass? ==> found.Ok? ==> found.value == num
  {
    ghost var d0, t0, z0, n0 := v.dev.dirents, v.dev.tables, dip.i_zones, dip.i_size / DIRENT_SIZE;
    ghost var seen1, slot, at;
    o, seen1, slot, at := v.DirentAdd(dip, filename, num);
    if o.Fail? {
      return o, Err(IoError);
    }
    ghost var d1, t1, z1, n1 := v.dev.dirents, v.dev.tables, dip.i_zones, dip.i_size / DIRENT_SIZE;
    assert slot <= n0;
    ghost var seen2;
    found, seen2 := v.DirSearch(dip, filename);
    if found.Err? {
      return;
    }
    LookupFindsAdded(d0, t0, z0, n0, d1, t1, z1, n1, v.dev.tables, dip.i_zones, seen2, filename, num, slot, at, found.value);
  }
}
