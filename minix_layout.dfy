/**
 * On-disk layout of a Minix file system as the driver in tools/minix/minix.c sees it:
 * the constants of minix.h, the three records it reads and writes (superblock, inode and
 * directory entry), the arithmetic that places an inode or a directory entry on the disk,
 * the error kinds that replace its calls to error(), and the C string routines that the
 * directory code uses on names.
 *
 * minix.h and stat.h are not part of this model; the constants below are those of the
 * Minix version 1 format that the driver targets, with 16-bit block numbers.
 */
module MinixLayout {

  // ---------------------------------------------------------------- constants

  const BLOCK_SIZE: nat := 1024
  /** sizeof(struct d_superblock). */
  const SUPERBLOCK_SIZE: nat := 20
  /** sizeof(struct d_inode). */
  const INODE_SIZE: nat := 32
  /** sizeof(struct d_dirent): a 16-bit inode number and a 14-character name. */
  const DIRENT_SIZE: nat := 16
  /** sizeof(block_t). */
  const BLOCK_T_SIZE: nat := 2

  const INODES_PER_BLOCK: nat := BLOCK_SIZE / INODE_SIZE
  const DIRENTS_PER_BLOCK: nat := BLOCK_SIZE / DIRENT_SIZE

  /** Direct zone pointers in an inode. */
  const NR_ZONES_DIRECT: nat := 7
  /** Zone pointers held by one single-indirect block. */
  const NR_SINGLE: nat := BLOCK_SIZE / BLOCK_T_SIZE
  /** Slot of the single-indirect pointer. */
  const ZONE_SINGLE: nat := 7
  const NR_ZONES: nat := 9

  const SUPER_MAGIC: nat := 0x137f
  const BLOCK_NULL: nat := 0
  const INODE_NULL: nat := 0
  const MINIX_NAME_MAX: nat := 14

  /** The directory file type (stat.h); the file type is bits 12 to 15 of a mode. */
  const S_IFDIR: nat := 0x4000

  /** A 16-bit unsigned value, the C type of inode numbers. */
  type u16 = x: int | 0 <= x < 0x1_0000

  const NUL: char := '\0'

  // ---------------------------------------------------------------- records

  /** The superblock fields that the driver reads. */
  datatype Superblock = Superblock(
    s_magic: nat,
    s_imap_nblocks: nat,
    s_bmap_nblocks: nat,
    s_first_data_block: nat,
    s_max_size: nat)

  /** An inode record: mode, owner, size, time, group, link count and zone pointers. */
  datatype DInode = DInode(
    i_mode: nat,
    i_uid: nat,
    i_size: nat,
    i_time: nat,
    i_gid: nat,
    i_nlinks: nat,
    i_zones: seq<nat>)

  /** An inode record always carries NR_ZONES zone pointers. */
  type Inode = d: DInode | |d.i_zones| == NR_ZONES
    witness DInode(0, 0, 0, 0, 0, 0, [0, 0, 0, 0, 0, 0, 0, 0, 0])

  /** A directory entry: an inode number (INODE_NULL marks a free slot) and a name field. */
  datatype Dirent = Dirent(d_ino: nat, d_name: seq<char>)

  /** S_ISDIR: the file type bits of the mode say "directory". */
  predicate IsDir(mode: nat)
  {
    (mode / 0x1000) % 0x10 == S_IFDIR / 0x1000
  }

  // ---------------------------------------------------------------- errors

  /** The failures that the driver reports through error(), and device failures. */
  datatype Error =
    | CorruptVolume           // "bad magic number"
    | InvalidInodeNumber      // "bad inode number"
    | InodeMapExhausted       // "inode map overflow"
    | ZoneMapExhausted        // "block map overflow"
    | FileTooLarge            // "file too big"
    | InvalidOffset           // "invalid offset"
    | UnsupportedIndirection  // "double indect zone"
    | NotADirectory           // "not a directory"
    | DuplicateEntry          // the name is already in the directory
    | IoError                 // a read or write outside the device

  datatype Result<+T> = Ok(value: T) | Err(error: Error)

  datatype Outcome = Pass | Fail(error: Error)

  // ---------------------------------------------------------------- placement

  /** Byte offset of the superblock: block 1. */
  const SUPER_OFFSET: nat := 1 * BLOCK_SIZE

  /** First block of the inode table: after the boot block, the superblock and both bitmaps. */
  function InodeTableStart(imapBlocks: nat, bmapBlocks: nat): nat
  {
    2 + imapBlocks + bmapBlocks
  }

  /**
   * Byte offset of inode num (minix_inode_read and minix_inode_write compute the same value):
   * the record lies in the (num / INODES_PER_BLOCK)-th block of the inode table, whole.
   */
  function InodeOffset(imapBlocks: nat, bmapBlocks: nat, num: nat): (off: nat)
    ensures off / BLOCK_SIZE == InodeTableStart(imapBlocks, bmapBlocks) + num / INODES_PER_BLOCK
    ensures off % BLOCK_SIZE + INODE_SIZE <= BLOCK_SIZE
  {
    var blk := InodeTableStart(imapBlocks, bmapBlocks) + num / INODES_PER_BLOCK;
    var slot := num % INODES_PER_BLOCK;
    assert (blk * BLOCK_SIZE + slot * INODE_SIZE) / BLOCK_SIZE == blk;
    blk * BLOCK_SIZE + slot * INODE_SIZE
  }

  /** Two different inode numbers occupy disjoint byte ranges of the disk. */
  lemma {:induction false} InodeSlotsDisjoint(imapBlocks: nat, bmapBlocks: nat, n: nat, m: nat)
    requires n < m
    ensures InodeOffset(imapBlocks, bmapBlocks, n) + INODE_SIZE <= InodeOffset(imapBlocks, bmapBlocks, m)
  {
    var on := InodeOffset(imapBlocks, bmapBlocks, n);
    var om := InodeOffset(imapBlocks, bmapBlocks, m);
    if n / INODES_PER_BLOCK == m / INODES_PER_BLOCK {
      assert n % INODES_PER_BLOCK < m % INODES_PER_BLOCK;
    } else {
      assert n / INODES_PER_BLOCK < m / INODES_PER_BLOCK;
      assert on / BLOCK_SIZE < om / BLOCK_SIZE;
    }
  }

  /** Distinct inode numbers have distinct offsets. */
  lemma InodeOffsetInjective(imapBlocks: nat, bmapBlocks: nat, n: nat, m: nat)
    requires n != m
    ensures InodeOffset(imapBlocks, bmapBlocks, n) != InodeOffset(imapBlocks, bmapBlocks, m)
  {
    if n < m {
      InodeSlotsDisjoint(imapBlocks, bmapBlocks, n, m);
    } else {
      InodeSlotsDisjoint(imapBlocks, bmapBlocks, m, n);
    }
  }

  /** Logical block of the directory that holds entry e. */
  function EntryBlock(e: nat): nat
  {
    e / DIRENTS_PER_BLOCK
  }

  /** Entry e lies DIRENT_SIZE * e bytes into the directory, inside logical block EntryBlock(e). */
  lemma EntryByteOffset(e: nat)
    ensures (e * DIRENT_SIZE) / BLOCK_SIZE == EntryBlock(e)
  {
  }

  /** The m-th entry of a block is entry start + m, where start is the block's first entry. */
  lemma EntryOfBlock(start: nat, m: nat)
    requires start % DIRENTS_PER_BLOCK == 0 && m < DIRENTS_PER_BLOCK
    ensures (start + m) % DIRENTS_PER_BLOCK == m && EntryBlock(start + m) == EntryBlock(start)
  {
  }

  /** The entries of the block starting at entry start all lie in that block, and the next block starts right after. */
  lemma BlockOfEntries(start: nat)
    requires start % DIRENTS_PER_BLOCK == 0
    ensures forall e :: start <= e < start + DIRENTS_PER_BLOCK ==> EntryBlock(e) == EntryBlock(start)
    ensures (start + DIRENTS_PER_BLOCK) % DIRENTS_PER_BLOCK == 0
  {
    forall e | start <= e < start + DIRENTS_PER_BLOCK
      ensures EntryBlock(e) == EntryBlock(start)
    {
      EntryOfBlock(start, e - start);
    }
  }

  /**
   * Byte offset of directory entry e when the directory block holding it is the physical
   * block blk: the entry's slot inside that block.
   */
  function EntryAddr(blk: nat, e: nat): nat
  {
    blk * BLOCK_SIZE + (e % DIRENTS_PER_BLOCK) * DIRENT_SIZE
  }

  /** Entry e's slot lies inside block blk. */
  lemma EntryAddrInBlock(blk: nat, e: nat)
    ensures EntryAddr(blk, e) / BLOCK_SIZE == blk
    ensures EntryAddr(blk, e) % BLOCK_SIZE + DIRENT_SIZE <= BLOCK_SIZE
  {
    var slot := e % DIRENTS_PER_BLOCK;
    assert (blk * BLOCK_SIZE + slot * DIRENT_SIZE) / BLOCK_SIZE == blk;
  }

  // ---------------------------------------------------------------- names

  /** The C string held in s: the characters before the first NUL (all of s if none). */
  function CStr(s: seq<char>): (r: seq<char>)
    ensures |r| <= |s| && r == s[..|r|]
    ensures NUL !in r
    ensures |r| < |s| ==> s[|r|] == NUL
  {
    if |s| == 0 || s[0] == NUL then [] else [s[0]] + CStr(s[1..])
  }

  /** At most the first n characters of s. */
  function Take(s: seq<char>, n: nat): (r: seq<char>)
    ensures |r| == if |s| < n then |s| else n
    ensures r == s[..|r|]
  {
    if |s| < n then s else s[..n]
  }

  /** Character k of s as C reads it, with NUL past the end. */
  function CharAt(s: seq<char>, k: nat): char
  {
    if k < |s| then s[k] else NUL
  }

  /**
   * strncmp(a, b, n) == 0, from position k on: the characters agree up to n, or up to a NUL
   * that both strings have at the same position.
   */
  predicate StrNEqFrom(a: seq<char>, b: seq<char>, k: nat, n: nat)
    decreases n - k
  {
    k >= n ||
    (CharAt(a, k) == CharAt(b, k) && (CharAt(a, k) == NUL || StrNEqFrom(a, b, k + 1, n)))
  }

  /** strncmp(a, b, n) == 0. */
  predicate StrNEq(a: seq<char>, b: seq<char>, n: nat)
  {
    StrNEqFrom(a, b, 0, n)
  }

  /** Where C reads a NUL in s: exactly from the end of the C string on, as far as k. */
  lemma CharAtCStr(s: seq<char>, k: nat)
    requires k <= |CStr(s)|
    ensures k < |CStr(s)| ==> CharAt(s, k) == CStr(s)[k] && CharAt(s, k) != NUL
    ensures k == |CStr(s)| ==> CharAt(s, k) == NUL
  {
  }

  lemma {:induction false} StrNEqFromKey(a: seq<char>, b: seq<char>, k: nat, n: nat)
    requires k <= n && k <= |CStr(a)| && k <= |CStr(b)|
    requires CStr(a)[..k] == CStr(b)[..k]
    ensures StrNEqFrom(a, b, k, n) <==> Take(CStr(a), n) == Take(CStr(b), n)
    decreases n - k
  {
    var A, B := CStr(a), CStr(b);
    CharAtCStr(a, k);
    CharAtCStr(b, k);
    if k == n {
    } else if k == |A| && k == |B| {
      assert A == A[..k] && B == B[..k];
    } else if k == |A| {
      assert |Take(B, n)| > k;
    } else if k == |B| {
      assert |Take(A, n)| > k;
    } else if A[k] != B[k] {
      assert Take(A, n)[k] != Take(B, n)[k];
    } else {
      assert A[..k + 1] == A[..k] + [A[k]] && B[..k + 1] == B[..k] + [B[k]];
      StrNEqFromKey(a, b, k + 1, n);
    }
  }

  /**
   * strncmp(a, b, n) == 0 exactly when the two C strings agree in their first n characters:
   * the comparison the driver makes between a stored name and the name searched for.
   */
  lemma StrNEqIff(a: seq<char>, b: seq<char>, n: nat)
    ensures StrNEq(a, b, n) <==> Take(CStr(a), n) == Take(CStr(b), n)
  {
    StrNEqFromKey(a, b, 0, n);
  }

  /**
   * strncpy(dst, src, n): the first n characters of the C string src, padded with NULs
   * to n characters (no terminator when src has n characters or more).
   */
  function StrNCpy(src: seq<char>, n: nat): (r: seq<char>)
    ensures |r| == n
    ensures Take(CStr(r), n) == Take(CStr(src), n)
  {
    var s := CStr(src);
    var r := seq(n, k requires 0 <= k < n => if k < |s| then s[k] else NUL);
    assert CStr(r) == Take(s, n) by {
      CStrOfPadded(r, Take(s, n));
    }
    r
  }

  /** A string that starts with a NUL-free c and continues with NULs holds the C string c. */
  lemma {:induction false} CStrOfPadded(r: seq<char>, c: seq<char>)
    requires |c| <= |r| && r[..|c|] == c && NUL !in c
    requires forall k :: |c| <= k < |r| ==> r[k] == NUL
    ensures CStr(r) == c
    decreases |c|
  {
    if |c| == 0 {
      if |r| > 0 {
        assert r[0] == NUL;
      }
    } else {
      assert r[0] == c[0];
      assert r[1..][..|c| - 1] == c[1..];
      CStrOfPadded(r[1..], c[1..]);
    }
  }

  /** A name stored by strncpy compares equal, by strncmp, to the name it was copied from. */
  lemma StrNCpyMatches(src: seq<char>, n: nat)
    ensures StrNEq(StrNCpy(src, n), src, n)
  {
    StrNEqIff(StrNCpy(src, n), src, n);
  }
}
