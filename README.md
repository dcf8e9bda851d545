# A verified model of the nanvix Minix driver and `strxfrm`

This project models two parts of nanvix in Dafny and proves properties of the model.

The first is the user-space Minix file system driver in `tools/minix/minix.c`. It covers:

- mounting, which reads and checks the superblock and loads both bitmaps;
- unmounting, which writes them back;
- reading and writing inodes by number;
- allocating zones and inodes from the bitmaps;
- mapping a file offset to a physical block through the direct pointers and the single-indirect block, allocating on demand;
- the directory scan `dirent_search`, with lookup, duplicate detection, free-slot reuse and growth;
- `dir_search`, `minix_dirent_add` and `minix_mkdir`.

The second is `strxfrm` in `src/lib/libc/string/strxfrm.c`, the C-locale (identity) transformation.

Layout of the model:

- `minix_layout.dfy` (module `MinixLayout`) holds the constants of `minix.h` for the Minix version 1 format, the superblock, inode and directory-entry records, the inode-number and entry-index offset arithmetic, the error kinds, and `strncmp`/`strncpy` on names.
- `bitmap.dfy` (`Bitmap`) holds the bitmap contract the driver relies on: the lowest clear bit, or none when the map is full, and setting exactly that bit.
- `device.dfy` (`Device`) models the disk image as a `Disk` object. It holds one record index per record kind, keyed by byte offset, and a capacity of `nblocks` blocks. A read or write outside the capacity is an I/O failure. A slot that holds no record reads as the all-zero record.
- `minix.dfy` (`Minix`) holds the driver:
  - The driver's global state, `super`, `imap` and `zmap`, becomes a `Volume` object. Its fields are the superblock fields, and its bitmaps are the arrays `inodeMap` and `zoneMap`.
  - An inode read into memory becomes a `MemInode` object. `BlockMap` and the directory operations update it in place, as the C code updates its `struct d_inode`.
  - Each `error(...)` becomes a failure result.
- `minix_properties.dfy` (`MinixProperties`) composes operations:
  - inode write then read;
  - unmount then remount;
  - a directory insertion then a lookup of the same name.
- `minix_findings.dfy` (`MinixFindings`) models three defects of the source as written; see "Findings".
- `strxfrm.dfy` (`Strxfrm`) holds `strxfrm` over a `char` array, with C strings as NUL-holding sequences.

Where the model takes a position the source leaves open:

- **Physical block addressing, everywhere.** Blocks returned by `minix_block_map` are physical (`s_first_data_block + bit`). The scan uses `blk*BLOCK_SIZE` for them, as lines 215, 317 and 439 do. Line 385 does not; see "Findings".
- **Last free slot reused.** `dirent_search` reuses the **last** free slot it read, because line 415 overwrites `entry` at every free slot. A caller might expect the first free slot; the model follows the code.
- **Name already present.** `minix_dirent_add` would seek to offset -1 when the name is already there (lines 495-498). The model returns the `DuplicateEntry` failure instead.
- **Holes below the size get allocated.** `minix_block_map` forces `create` for every offset below `i_size` (lines 285-286). Even a search without `create` therefore allocates blocks for holes it maps. The model keeps this. What it proves about a scan holds whatever the scan allocates: every logical block already mapped stays mapped to the same physical block (`Minix.Keeps`).
- **Bitmaps right after the superblock.** The superblock is read and written at block 1. The bitmaps are read and written right after the superblock record, by consecutive device accesses, as the code does (lines 68-81, 90-101).

## Model

| member | source | states |
|---|---|---|
| MinixLayout.InodeOffset | tools/minix/minix.c:152-157 | inode `num`'s record lies whole inside block `2 + s_imap_nblocks + s_bmap_nblocks + num/inodes_per_block` |
| MinixLayout.InodeSlotsDisjoint | tools/minix/minix.c:152-157 | a lower inode number's 32-byte record ends at or before a higher number's record begins |
| MinixLayout.InodeOffsetInjective | tools/minix/minix.c:185-190 | read and write place distinct inode numbers at distinct offsets, so writing one inode cannot change another |
| MinixLayout.EntryAddrInBlock | tools/minix/minix.c:434-440 | entry `e`'s byte address (in-block slot `e % 64`) lies wholly inside physical block `blk` |
| MinixLayout.EntryByteOffset | tools/minix/minix.c:375-376 | the byte offset `e*sizeof(d_dirent)` handed to the block mapper falls in logical block `EntryBlock(e)` |
| MinixLayout.BlockOfEntries | tools/minix/minix.c:371-376 | the 64 entries counted from a block's first entry all lie in that block, and the next block starts after them |
| MinixLayout.StrNEqIff | tools/minix/minix.c:401 | `strncmp(a, b, n) == 0` exactly when the C strings `a` and `b` agree in their first `n` characters |
| MinixLayout.StrNCpy | tools/minix/minix.c:503 | `strncpy` yields exactly `n` characters, holding the first `n` characters of the source C string |
| MinixLayout.StrNCpyMatches | tools/minix/minix.c:401-503 | a name stored by `strncpy(d_name, filename, MINIX_NAME_MAX)` compares equal to `filename` under `strncmp` |
| Bitmap.LowestClear | tools/minix/minix.c:210-211 | the bitmap has no clear bit exactly when it is full; otherwise the result is clear and every lower bit is set |
| Bitmap.FirstFree | tools/minix/minix.c:236-237 | the byte-then-bit scan of the array returns the lowest clear bit, or none when the map is full |
| Bitmap.SetBitOnly | tools/minix/minix.c:213 | after setting bit `i` a bit is set exactly when it was set before or it is `i` |
| Bitmap.Set | tools/minix/minix.c:239 | the array afterwards holds the old bitmap with bit `i` set |
| Bitmap.CountSetAll | tools/minix/minix.c:210-211 | the count of set bits below `k` is `k` exactly when every bit below `k` is set |
| Bitmap.FullCount | tools/minix/minix.c:210-211 | the bitmap reports full exactly when all of its `|s|*8` bits are counted as set |
| Bitmap.CountSetBit | tools/minix/minix.c:213 | setting a clear bit adds one to the count of every prefix that contains it, and leaves the others as they were |
| Bitmap.AllocateCounts | tools/minix/minix.c:210-213 | one first-free-then-set step on a bitmap that is not full takes exactly one more bit |
| Bitmap.AllocateExhausts | tools/minix/minix.c:210-213 | a bitmap with `f` clear bits serves `n <= f` allocations, with each taking one bit; after exactly `f` it reports full, and not before |
| Minix.MemInode.FromRecord | tools/minix/minix.c:160-161 | the in-memory inode holds exactly the record read from the disk |
| Minix.Volume.SuperRead | tools/minix/minix.c:65-82 | fails with `CorruptVolume` on a bad magic; succeeds exactly when the magic is right and both bitmaps fit on the device, and then holds the superblock read and bitmaps of `s_imap_nblocks*BLOCK_SIZE` and `s_bmap_nblocks*BLOCK_SIZE` bytes equal to the bytes on disk |
| Minix.Mount | tools/minix/minix.c:113-117 | mounting yields a volume exactly when the superblock check passes; the new volume's superblock and bitmaps are those on the device |
| Minix.Volume.SuperWrite | tools/minix/minix.c:87-106 | corrected: writes the superblock, inode map and zone map held in memory to the places they are read from, and no other record |
| Minix.Volume.SuperWriteAsWritten | tools/minix/minix.c:87-106 | as written: the bitmaps are replaced by newly allocated buffers before being written, so the device receives those buffers and the allocation state in memory is lost |
| Minix.Volume.Umount | tools/minix/minix.c:124-128 | unmounting persists the superblock and both bitmaps held in memory, and writes no other record |
| Minix.Volume.InodeRead | tools/minix/minix.c:139-164 | rejects `num >= s_imap_nblocks*BLOCK_SIZE*8`; otherwise returns a new in-memory inode equal to the record at the inode's offset |
| Minix.Volume.InodeWrite | tools/minix/minix.c:174-196 | rejects the same numbers; otherwise stores the inode at its offset, and no other inode number's record changes; a failure writes nothing |
| Minix.Volume.BlockAlloc | tools/minix/minix.c:205-216 | fails exactly when the zone map is full; otherwise sets just the lowest clear bit and returns `s_first_data_block + bit` |
| Minix.Volume.InodeAlloc | tools/minix/minix.c:229-255 | fails when the inode map is full; otherwise sets the lowest clear bit, returns `2 + s_imap_nblocks + s_bmap_nblocks + bit` (16 bits) and persists an inode with the given mode, uid and gid, size 0, time 0, one link and every zone `BLOCK_NULL` |
| Minix.KeepsFillPointer | tools/minix/minix.c:290-296 | storing a new zone in an empty inode pointer leaves every logical block already mapped where it was |
| Minix.KeepsFillSlot | tools/minix/minix.c:320-326 | storing a new zone in an empty slot of the single-indirect block leaves every logical block already mapped where it was |
| Minix.Volume.MapDirect | tools/minix/minix.c:288-299 | a null direct pointer with create gets exactly one new zone, which becomes `i_zones[logic]`; a non-null one is returned with no allocation; nothing else changes |
| Minix.Volume.MapIndirect | tools/minix/minix.c:306-315 | an indirect pointer in place is returned with no change; a null one fails with `InvalidOffset` unless creating; with create it becomes the lowest free zone, taken in the zone map, and a zone of 0 still fails; no other pointer changes |
| Minix.Volume.MapSlot | tools/minix/minix.c:317-330 | an indirect block outside the device fails; a filled slot, or any slot without create, is returned with no change; an empty slot with create gets the lowest free zone, and the indirect block is written back with just that slot changed; no mapped block is remapped |
| Minix.Volume.MapSingle | tools/minix/minix.c:301-331 | a null single-indirect pointer fails with `InvalidOffset` unless creating; an empty slot under an indirect block in place gets the lowest free zone, taken in the zone map; a missing indirect block becomes the lowest free zone, and then the slot is taken as that block holds it, or filled with the next free zone; the indirect block is written back only when one of its slots was newly allocated, and then with just that slot changed |
| Minix.Volume.BlockMap | tools/minix/minix.c:269-339 | `off >= s_max_size` fails; an offset below `i_size` forces create; the result is the block logical block `off/BLOCK_SIZE` maps to afterwards; an already mapped block is returned with no change; without create past the size nothing changes; a missing block is the lowest free zone, taken in the zone map, in the direct and in the single-indirect range, and a missing indirect block is allocated first; no mapped block is ever remapped; logical blocks past the single-indirect range fail |
| Minix.LastFree | tools/minix/minix.c:412-415 | the remembered free slot is the last free entry read, -1 when none was |
| Minix.SkipStep | tools/minix/minix.c:371-377 | skipping the 64 entries of an unmapped block keeps the scan's record: entries read sit at their slots without the name, entries skipped were unmapped |
| Minix.ScannedAbsent | tools/minix/minix.c:364-419 | every entry the scan went over whose block was mapped was read at its slot, and did not carry the name |
| Minix.Volume.NextBlock | tools/minix/minix.c:390-393 | looking up the scan's next block remaps nothing, and returns the block entry `i`'s logical block maps to |
| Minix.Volume.ScanBlock | tools/minix/minix.c:380-418 | reads the entries of one block at `blk*BLOCK_SIZE` slot by slot; stops at the first entry carrying the name, otherwise records every entry read as free-or-differently-named and tracks the last free one |
| Minix.Volume.ScanStep | tools/minix/minix.c:370-419 | one pass of the loop (skip an unmapped block, or read a block and fetch the next) extends the scan's record and keeps every mapped block in place |
| Minix.Volume.Scan | tools/minix/minix.c:364-419 | the loop goes over the entries in order and stops early exactly at an entry carrying the name |
| Minix.Volume.DirentSearch | tools/minix/minix.c:355-442 | a match with create returns -1, a match without create returns the entry's offset, no match without create returns -1; with create, the last free slot is reused with `i_size` unchanged, or the directory grows by exactly one entry |
| Minix.Volume.DirSearch | tools/minix/minix.c:457-475 | rejects a non-directory; returns `INODE_NULL` exactly when no entry carries the name, else the `d_ino` of the first entry that does |
| Minix.Volume.DirentAdd | tools/minix/minix.c:488-508 | fails when the name is in a mapped entry already; otherwise writes `d_ino = num` and the name cut to `MINIX_NAME_MAX` by `strncpy` at the chosen slot, and no other entry; the directory grows by one entry exactly when no free entry was found |
| Minix.Volume.Mkdir | tools/minix/minix.c:522-535 | rejects a non-directory before allocating or writing anything; fails when the name is already in a mapped entry of `dip`; mapped blocks of `dip` stay in place; takes the lowest free inode-map bit and persists an `S_IFDIR` inode with uid 0 and gid 0, one link and no zones, writing no other inode; enters it under the name at an entry slot of `dip`, writing no other entry; returns its number |
| MinixProperties.InodeRoundTrip | tools/minix/minix.c:147-193 | writing inode `num` and reading it back gives the inode written; other inodes are unchanged |
| MinixProperties.RemountRoundTrip | tools/minix/minix.c:65-128 | after a successful unmount, mounting the same device gives back the superblock and both bitmaps |
| MinixProperties.LookupFindsAdded | tools/minix/minix.c:457-508 | for any states an add and a later lookup can leave, with the add's entry written at its slot and the name absent from every entry before it, the lookup's answer is the number entered |
| MinixProperties.AddThenLookup | tools/minix/minix.c:457-508 | after adding a name with inode `num` to a directory without holes, a lookup of the name that does not fail returns `num` |
| MinixFindings.ClearZonesAsWritten | tools/minix/minix.c:250-251 | the zone-clearing loop as written clears only the zones from the counter's starting value on |
| MinixFindings.StaleZonesSurvive | tools/minix/minix.c:250-251 | with a counter starting at `NR_ZONES` or above, the new inode keeps every zone the slot held |
| MinixFindings.ZeroMapFirstFree | tools/minix/minix.c:94-96 | a freshly zeroed bitmap's lowest clear bit is bit 0 |
| MinixFindings.UmountForgetsAllocation | tools/minix/minix.c:87-128 | after unmounting as written and mounting again, an inode whose bit was set is free again and is the next handed out |
| MinixFindings.ScanBaseAsWritten | tools/minix/minix.c:385 | as written, the scan starts reading directory block `blk` at block `s_first_data_block + blk` |
| MinixFindings.ScanBaseMissesEntry | tools/minix/minix.c:385-440 | when `s_first_data_block` is not 0, the scan reads entry `e` of directory block `blk` at a different address, in a different block, from the one where `minix_dirent_add` writes it |
| Strxfrm.StrLen | src/lib/libc/string/strxfrm.c:93-97 | the length of a C string is the index of its first NUL |
| Strxfrm.Strxfrm | src/lib/libc/string/strxfrm.c:82-100 | returns the length of `s2` whatever `n` is; `s1` afterwards holds the first `min(n, len)` characters of `s2` followed by its own remaining characters |
| Strxfrm.TransformedCopies | src/lib/libc/string/strxfrm.c:87-91 | the first `min(n, len)` characters are copied, every character from there on (and every one from `n` on) is untouched, and no terminator is written |
| Strxfrm.TransformedNothing | src/lib/libc/string/strxfrm.c:87 | with `n == 0` nothing is written |
| Strxfrm.TransformedShort | src/lib/libc/string/strxfrm.c:75-91 | when the result is below `n`, `s1` starts with the whole of `s2` and the character after it is `s1`'s own |

## Left out

- Device I/O through `sopen`, `slseek`, `sread`, `swrite` and `sclose` (`util.h`). The device is an in-memory record store, and an access outside the device's capacity is an `IoError`. Short reads and writes, and seek failures, are not modelled, because `util.h` is not part of this model.
- `smalloc` and `free`. The memory they manage is not modelled. A read inode is a new object, and the model releases nothing.
- Process termination by `error()`. Each call becomes a typed failure result, and later steps of the operation do not run.
- The byte layout and endianness of `d_superblock`, `d_inode` and `d_dirent`. They are records, with their sizes as constants.
- Records of different kinds at the same bytes do not alias. A block written as a zone table is not seen as directory entries or as bitmap bytes.
- Bitmap words. The bitmaps are byte sequences: bit `i` is bit `i % 8` of byte `i / 8`. This is the layout of `uint32_t` words on a little-endian machine, because `bitmap.h` is not part of this model.
- `S_ISDIR` is defined on the file-type bits of the mode, since `stat.h` is not part of this model.
- A newly allocated single-indirect block is not cleared by the source. The model reads whatever table is recorded at that block, or all `BLOCK_NULL` when none is.
- Double-indirect mapping. The source only fails there, and so does the model.
- `Minix.Volume.BlockAlloc`: does not truncate `s_first_data_block + bit` to the width of `block_t`, because `minix.h` is not part of this model.
- `Minix.Volume.NextBlock`, `Minix.Volume.Scan`, `Minix.Volume.ScanStep`, `Minix.Volume.DirentSearch`, `Minix.Volume.DirSearch`, `Minix.Volume.DirentAdd` and `Minix.Volume.Mkdir`: do not state the zone map's new contents. They take zones only through `BlockMap`, whose contract says which; they state that no mapped block of the directory is remapped.
- `Minix.Volume.BlockMap`: does not model the `(uint32_t)off` casts. Every offset the driver passes is a small non-negative entry offset.
- Block numbers, sizes and counts are unbounded integers. So are the `uint16_t` parameters `mode`, `uid` and `gid` of `minix_inode_alloc` and the fixed-width fields of an inode. Only inode numbers are 16-bit values: `minix_inode_alloc` returns its number as `uint16_t`.
- `Minix.Volume.DirentSearch`: in the reuse case it states that a successful result is the last free slot's address, and that a slot beyond `s_max_size` fails. It does not state that the final `minix_block_map` call succeeds.
- `Minix.Volume.DirentAdd`: states that a name already in a mapped entry makes the add fail. It does not state that the failure is `DuplicateEntry`, because the search's own failures are not distinguished from it.
- `MinixProperties.AddThenLookup`: is proved only for a directory none of whose blocks is unmapped, and for a file system whose `s_first_data_block` is not 0. Both hold for directories built by `minix_mkdir` on a file system laid out as usual.
- `MinixProperties.AddThenLookup`: does not prove that the lookup succeeds. It states the number only when the lookup does not fail. The source's lookup can fail too: a directory block can lie outside the device, a directory can be larger than `s_max_size`, or it can reach past the single-indirect range (lines 278-279, 336, 397). The model's search contracts do not say which failures are impossible after a successful add.
- `minix_mount` and `minix_umount` open and close the device file. The model is handed the device.
- Locale-aware collation in `strxfrm`. The code implements only the identity copy.
- `Strxfrm.Strxfrm`: requires `s1` to have room for the characters written, not for `n` characters. `s1` is never null, so the case of `n == 0` with a null `s1` is not represented. `s2` is a value, so overlapping arguments, which are undefined in C, cannot arise.

## Findings

| source | as written | input that shows it | evidently intended | confidence | as-written member | corrected member |
|---|---|---|---|---|---|---|
| tools/minix/minix.c:250 | the zone-clearing loop counter is declared without a value, so clearing starts wherever the variable happens to stand | an inode slot that holds zones of a deleted file, and a counter holding 9: no zone is cleared, and the new inode shares those blocks | the counter starts at 0 and all `NR_ZONES` pointers become `BLOCK_NULL` | not executed | MinixFindings.StaleZonesSurvive | Minix.Volume.InodeAlloc |
| tools/minix/minix.c:94-101 | `minix_super_write` allocates new bitmap buffers and writes those, not the bitmaps held | a mounted volume whose inode map has bit 0 set: after unmount and mount, bit 0 is clear and the next allocation hands out that inode again | write the bitmaps held in memory | not executed | MinixFindings.UmountForgetsAllocation | MinixProperties.RemountRoundTrip |
| tools/minix/minix.c:385 | the scan reads physical block `blk` at `(s_first_data_block + blk)*BLOCK_SIZE` | `s_first_data_block = 5`, directory block 10: the scan reads entry 0 at byte 15360, while `minix_dirent_add` wrote it at byte 10240 | `blk*BLOCK_SIZE`, as at line 439 | not executed | MinixFindings.ScanBaseMissesEntry | MinixProperties.AddThenLookup |
