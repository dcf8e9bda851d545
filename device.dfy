/**
 * The block device under the Minix driver: the file opened by minix_mount, which the driver
 * reads and writes with seek/read/write at byte offsets. The disk is nblocks blocks of
 * BLOCK_SIZE bytes. It keeps one index per kind of record the driver transfers, each keyed
 * by the byte offset the record starts at; a transfer that would run past the end of the
 * disk fails. An offset where no record of the requested kind was stored reads as the
 * all-zero record of that kind, as on a zero-filled image.
 */
module Device {
  import opened MinixLayout
  import Bitmap

  /** The NR_SINGLE zone pointers of the block at off, read as a zone table from an index of tables. */
  function TableIn(tables: map<nat, seq<nat>>, off: nat): (t: seq<nat>)
    ensures |t| == NR_SINGLE
    ensures off in tables && |tables[off]| == NR_SINGLE ==> t == tables[off]
    ensures !(off in tables && |tables[off]| == NR_SINGLE) ==> forall k :: 0 <= k < NR_SINGLE ==> t[k] == BLOCK_NULL
  {
    if off in tables && |tables[off]| == NR_SINGLE then tables[off] else seq(NR_SINGLE, _ => BLOCK_NULL)
  }

  /** The directory entry at off in an index of entries; an empty entry where none was stored. */
  function DirentIn(dirents: map<nat, Dirent>, off: nat): Dirent
  {
    if off in dirents then dirents[off] else Dirent(INODE_NULL, seq(MINIX_NAME_MAX, _ => NUL))
  }

  class Disk {
    const nblocks: nat
    var supers: map<nat, Superblock>
    var bytes: map<nat, seq<Bitmap.byte>>
    var inodes: map<nat, Inode>
    var dirents: map<nat, Dirent>
    var tables: map<nat, seq<nat>>

    /** Every zone table lies inside the disk (the writes below keep this). */
    ghost predicate Valid()
      reads this
    {
      forall a :: a in tables ==> InRange(a, BLOCK_SIZE)
    }

    /** A transfer of len bytes at byte offset off stays inside the disk. */
    predicate InRange(off: nat, len: nat)
    {
      off + len <= nblocks * BLOCK_SIZE
    }

    constructor (nblocks: nat, supers: map<nat, Superblock>, bytes: map<nat, seq<Bitmap.byte>>,
                 inodes: map<nat, Inode>, dirents: map<nat, Dirent>, tables: map<nat, seq<nat>>)
      requires forall a :: a in tables ==> a + BLOCK_SIZE <= nblocks * BLOCK_SIZE
      ensures Valid()
      ensures this.nblocks == nblocks && this.supers == supers && this.bytes == bytes
      ensures this.inodes == inodes && this.dirents == dirents && this.tables == tables
    {
      this.nblocks := nblocks;
      this.supers := supers;
      this.bytes := bytes;
      this.inodes := inodes;
      this.dirents := dirents;
      this.tables := tables;
    }

    function SuperAt(off: nat): Superblock
      reads this
    {
      if off in supers then supers[off] else Superblock(0, 0, 0, 0, 0)
    }

    /** The n bytes stored at off, if a string of that length was stored there. */
    function BytesAt(off: nat, n: nat): (r: seq<Bitmap.byte>)
      reads this
      ensures |r| == n
      ensures off in bytes && |bytes[off]| == n ==> r == bytes[off]
      ensures !(off in bytes && |bytes[off]| == n) ==> forall k :: 0 <= k < n ==> r[k] == 0
    {
      if off in bytes && |bytes[off]| == n then bytes[off] else seq(n, _ => 0)
    }

    function InodeAt(off: nat): Inode
      reads this
    {
      if off in inodes then inodes[off] else DInode(0, 0, 0, 0, 0, 0, [0, 0, 0, 0, 0, 0, 0, 0, 0])
    }

    function DirentAt(off: nat): Dirent
      reads this
    {
      DirentIn(dirents, off)
    }

    method WriteSuper(off: nat, sb: Superblock)
      requires InRange(off, SUPERBLOCK_SIZE)
      modifies this`supers
      ensures supers == old(supers)[off := sb]
    {
      supers := supers[off := sb];
    }

    method WriteBytes(off: nat, b: seq<Bitmap.byte>)
      requires InRange(off, |b|)
      modifies this`bytes
      ensures bytes == old(bytes)[off := b]
    {
      bytes := bytes[off := b];
    }

    method WriteInode(off: nat, d: Inode)
      requires InRange(off, INODE_SIZE)
      modifies this`inodes
      ensures inodes == old(inodes)[off := d]
    {
      inodes := inodes[off := d];
    }

    method WriteDirent(off: nat, d: Dirent)
      requires InRange(off, DIRENT_SIZE)
      modifies this`dirents
      ensures dirents == old(dirents)[off := d]
    {
      dirents := dirents[off := d];
    }

    method WriteTable(off: nat, t: seq<nat>)
      requires Valid() && InRange(off, BLOCK_SIZE)
      modifies this`tables
      ensures Valid() && tables == old(tables)[off := t]
    {
      tables := tables[off := t];
    }
  }
}
