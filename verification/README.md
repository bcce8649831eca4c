# libfat core in Dafny

A model of the core of libfat, a small FAT32 driver written in C++
(`src/fat.cc`, `src/fat.hh`). The project covers these parts:

- **Volume loading.** The `FAT::FAT` constructor reads the boot sector and
  the FS-information sector and runs an ordered list of checks. The
  volume leaves its error state only when every check passes.
- **The File Allocation Table.** It covers `getFATEntry`, `setFATEntry`
  and the allocator `getFreeCluster`, including its hint.
- **The `FAT::File` pointer.** `tell`, `seek` and `reset`. Following a
  cluster chain sector by sector is built on `seek`.
- **Directory scanning.** `readEntry` and the 8.3 name conversion
  `nameFrom83`.
- **Path resolution.** `bind`.
- **Reading file contents.** `read`.

`unsigned` computations are modelled on unbounded integers, and
wrap-around modulo 2^32 is written out (`Words.Add32`, `Sub32`, `Mul32`).
The one exception is the byte offset of a sector read or write: it is
stated by `BlockDevice.ByteOffset`, but the store is keyed by sector index
(see "Left out").
Values an `int`-returning function gives back go through
`Words.ToInt32`. The disk is a map from sector index to a 512-byte sector;
a sector missing from the map is a failed `pread`. A separate set marks
the sectors whose `pwrite` fails.

Modules, in dependency order:

- `Words`: machine words, masks, `memGet`/`memSet`, `tolower` and C strings.
- `BlockDevice`: `readSector` and `writeSector`.
- `VolumeGeometry`: the constructor.
- `FatTable`: FAT entries and the allocator.
- `Files`: `Attr`, `Result`, the `File` record, `tell`, `seek`, `reset`,
  and chain walks.
- `NameCodec`: `nameFrom83`.
- `DirectoryScanner`: `readEntry`.
- `PathResolver`: `bind`, and a reference resolution to compare it with:
  a path's components, each matched against the listing of the directory
  the previous ones reached.
- `FileRead`: `read`.

Where a conventional FAT32 driver would behave differently, the model
follows this code:

- A slot whose first byte is 0x00 is skipped like a deleted slot (0xE5).
  It does not end the directory.
- `seek` carries at most one sector per call. A failed FAT read makes it
  return `true`, the same answer as the end of the chain.
- The constructor only checks that the root cluster is non-zero, not that
  it is at least 2. It reads and tests that field twice.
- `getFreeCluster` takes a hint in range on trust. Its range bound divides
  by the literal 8, not by the cluster size.
- `read` copies each chunk from the start of the sector buffer. It does not
  advance the pointer past the last chunk.

## Model

| member | source | states |
|---|---|---|
| Words.ToInt32 | src/fat.cc:649-658 | An `unsigned` returned as `int` is the two's-complement reading: in `int` range and congruent to the value modulo 2^32 |
| Words.Mask28 | src/fat.cc:613-615 | `& 0x0FFFFFFF` leaves a value below 2^28 and does not change a value already below 2^28 |
| Words.KeepTopNibble | src/fat.cc:630-632 | `(original & 0xF0000000)` OR `val` has the low 28 bits of `val`, its top nibble is the OR of both top nibbles, and it keeps the original nibble when `val` fits in 28 bits |
| Words.MemGet | src/fat.cc:542-555 | A byte, word or dword read fits in its width |
| Words.MemGetIsLeValue | src/fat.cc:542-555 | `memGet` is the little-endian value of the field's bytes |
| Words.MemSet | src/fat.cc:557-571 | `memSet` keeps the buffer length; reading the field back gives `val` truncated to the field width; every byte outside the field is unchanged |
| Words.ToLower | src/fat.cc:581 | `tolower` maps 'A'..'Z' to lower case and leaves every other character alone |
| Words.CStr | src/fat.cc:119 | What `strcasecmp` sees of a name buffer: a NUL-free prefix that ends at the first NUL |
| BlockDevice.ReadSector | src/fat.cc:514-526 | A sector read succeeds exactly when the store holds the sector, and then returns its bytes |
| BlockDevice.WriteSector | src/fat.cc:528-540 | A sector write succeeds exactly when the sector exists and is writable; afterwards that sector reads back as written and no other sector changes |
| BlockDevice.ByteOffset | src/fat.cc:514-540 | The byte offset both calls pass to the host, `start * sizeSector` in `unsigned` arithmetic, is `(start mod 2^23) * 512` |
| BlockDevice.ByteOffsetAliases | src/fat.cc:516 | Sectors `n` and `n + 2^23` are read from the same byte offset |
| VolumeGeometry.Load | src/fat.cc:285-470 | The volume is ready if and only if all 17 ordered checks pass. A failed load reports the error of the first failing check. A ready volume satisfies the geometry invariant, and every field of it is decoded from the bytes of the boot sector and of the FS-information sector that sector names |
| VolumeGeometry.LoadMatchesChecks | src/fat.cc:289-467 | The constructor's chain of early returns agrees with the reference list of checks in both directions, including which error is reported |
| VolumeGeometry.LoadFollowsChecks | src/fat.cc:289-462 | The index of the first failing check determines the error returned, and no failing check means success |
| VolumeGeometry.DecodeValid | src/fat.cc:322-467 | Once all boot checks pass, the decoded geometry has: cluster size a power of two up to 128, at least one FAT, non-zero sector count, sectors per FAT and root cluster, FAT version 0, and `offsetData = reserved + numFATS * sectorsPerFAT` modulo 2^32 |
| VolumeGeometry.DecodeFields | src/fat.cc:322-467 | Each field is the little-endian value at its offset: the sector count is the word at 0x013, or the dword at 0x020 when that word is zero; `mirroring` is bit 7 of the flags at 0x028 being clear and `activeFAT` their low nibble; `dirty` is bit 0 of byte 0x041; the free-cluster count and last-cluster hint come from 0x1E8 and 0x1EC of the FS-information sector; `offsetData` is `reserved + numFATS * sectorsPerFAT` modulo 2^32 |
| VolumeGeometry.ZeroBootSectorRejected | src/fat.cc:297-302 | An all-zero boot sector fails on the boot signature |
| VolumeGeometry.LargeSectorRejected | src/fat.cc:315-320 | With both signatures right, 1024 bytes per sector is rejected as a bad bytes-per-sector value |
| FatTable.GetFATEntry | src/fat.cc:601-617 | -1 exactly when the entry's sector cannot be read; otherwise a value below 2^28 |
| FatTable.GetFATEntryReads | src/fat.cc:606-615 | Entry `n` is bytes `4*(n%128)..+4` of sector `reservedSectors + n/128` (wrapping), read little-endian with the top four bits masked |
| FatTable.SetFATEntry | src/fat.cc:619-635 | The write succeeds exactly when the entry's sector can be read and written. On failure the disk is unchanged. On success only that sector changes, and it holds the stored entry |
| FatTable.StoreEntry | src/fat.cc:624-632 | Only the four entry bytes change; the stored low 28 bits are those of `val`; the top nibble is the OR of the old and new top nibbles, since `val` is not masked |
| FatTable.SetThenGet | src/fat.cc:601-635 | Round trip: after a successful `setFATEntry(n, val)`, `getFATEntry(n)` gives `val` modulo 2^28 |
| FatTable.SetKeepsReservedBits | src/fat.cc:630-632 | Writing a 28-bit value keeps the entry's reserved top nibble and reads back as exactly that value |
| FatTable.SetLeavesOtherEntries | src/fat.cc:619-635 | Writing entry `n` leaves the value of every other entry `m` unchanged, including entries in the same sector |
| FatTable.GetFreeCluster | src/fat.cc:637-660 | The unset hint becomes the root cluster and root + 1 is returned. A trusted hint gives hint + 1 unchecked. Otherwise the result is the first zero entry of the scan, all earlier entries being in use, and -1 means a read failure or no zero entry within `sectorsPerFAT * 128` |
| Files.Reset | src/fat.cc:140-148 | `reset` puts the pointer at byte 0 of sector 0 of the first cluster and changes nothing else |
| Files.TellFormula | src/fat.cc:13-21 | `tell` is `offsetData + (cluster - 2) * sizeCluster + sector` reduced once modulo 2^32; the byte offset plays no part |
| Files.Seek | src/fat.cc:23-57 | `seek` either keeps the cluster or moves to the current cluster's FAT entry. It stops only when that entry is unreadable or marks the end of the chain. An unstopped move to another cluster follows a chain link |
| Files.SeekAdvances | src/fat.cc:23-57 | For a pointer inside its cluster and an advance of at most one sector, the offset in the cluster grows by exactly `bytes`. Crossing the cluster's end moves to the successor cluster at the matching offset. On an unreadable or end-of-chain entry it stops, keeping the advanced sector and byte offset, in the old cluster or the end marker respectively |
| Files.SeekCarriesOnce | src/fat.cc:27-36 | A single call carries at most one sector, so an advance of two sectors or more leaves the byte offset at 512 or beyond |
| Files.SeekOneSector | src/fat.cc:27-49 | `seek(512)` from a sector start goes to the next sector, to the start of the successor cluster, or stops at the chain's end |
| Files.WalkWholeCluster | src/fat.cc:38-49 | Seeking a whole cluster sector by sector from its start reaches the successor cluster's start, or stops when the entry ends the chain |
| Files.WalkClusters | src/fat.cc:38-49 | Along a cluster chain, `k` clusters' worth of sector steps reaches the start of the chain's `k`-th cluster |
| Files.WalkWithinChain | src/fat.cc:23-57 | Sector `r` of the chain's cluster `q` is reached after `q * sizeCluster + r` sector steps |
| Files.WalkStopsAtChainEnd | src/fat.cc:38-49 | Reading a chain of `n` clusters sector by sector, `seek` reports the end exactly at step `n * sizeCluster` and never earlier |
| NameCodec.LastBaseFinds | src/fat.cc:575-583 | The first loop leaves `index1` at the last non-space among the eight base characters, and at 7 when all are spaces |
| NameCodec.BaseLengthTrims | src/fat.cc:575-585 | Only spaces follow the base. The base ends in a non-space unless all eight characters are spaces, in which case it is eight characters long |
| NameCodec.ExtScanIsNonSpace | src/fat.cc:587-590 | The second loop appends exactly the lowered non-space characters of the extension field, in order |
| NameCodec.NameFrom83 | src/fat.hh:37 | The converted name fits `name[13]` with its terminating NUL |
| NameCodec.NameFrom83Parts | src/fat.cc:573-599 | The result is the lowered base. When the extension holds a non-space, it is followed by '.' and the lowered non-space extension characters |
| NameCodec.NameFrom83OfPack | src/fat.hh:135-137 | Round trip: a base without trailing spaces and a space-free extension, padded into the 11-byte field, come back as `base.ext` lowered, or `base` when the extension is empty |
| NameCodec.AllSpaces | src/fat.cc:575-597 | An all-space field gives eight spaces and no extension |
| DirectoryScanner.JoinCluster | src/fat.cc:189-191 | `high << 16` OR `low` keeps both halves: the low 16 bits are `low` and the high bits are `high` |
| DirectoryScanner.DecodeEntry | src/fat.cc:184-194 | A decoded entry's pointer is reset to its first cluster |
| DirectoryScanner.DecodeEntryFields | src/fat.cc:184-193 | The decoded name comes from the 11 name bytes and the attribute is byte 0x0B. The first cluster is the little-endian halves at 0x1A (low) and 0x14 (high). The size is the little-endian dword at 0x1C |
| DirectoryScanner.SeekSlotAligned | src/fat.cc:177-201 | `seek(32)` keeps the pointer on a 32-byte slot boundary |
| DirectoryScanner.ScanFrom | src/fat.cc:165-202 | Only the directory's pointer changes. An entry comes back exactly with `INF_SUCCESS` or `INF_LAST`. `ERR_NOT_DIR` is never returned, and the returned entry is reset |
| DirectoryScanner.ReadEntry | src/fat.cc:151-204 | A directory with first cluster 0 is scanned as the root directory; any other directory keeps all fields except its pointer |
| DirectoryScanner.FromRoot | src/fat.cc:153-159 | The `..`-of-root case: first cluster 0 becomes the root cluster with the pointer reset, and other directories are untouched |
| DirectoryScanner.NextSlot | src/fat.cc:165-182 | The slot search stays on 32-byte slot boundaries; a slot it finds is readable and live, and one it reports unreadable cannot be read |
| DirectoryScanner.SlotWalk | src/fat.cc:177-180 | Stepping 32 bytes at a time keeps the pointer on a slot boundary |
| DirectoryScanner.ScannedEntryIsLive | src/fat.cc:165-198 | Every returned entry was decoded from the first live slot the 32-byte steps from the pointer reach, within the fuel bound; every slot passed over was readable and marked 0x00 or 0xE5 |
| DirectoryScanner.ScannedSlot | src/fat.cc:165-202 | The returned entry is decoded from the slot reached after `k` free slots; the pointer ends one 32-byte step past it, and `INF_LAST` comes exactly when that step stops |
| DirectoryScanner.FoundAfterFreeSlots | src/fat.cc:165-182 | A slot the search finds lies behind only free, readable slots, reached without a stop |
| DirectoryScanner.NextLiveIsFound | src/fat.cc:165-182 | Conversely, a live slot behind only free slots, within the fuel bound, is the one the search finds |
| DirectoryScanner.List | src/fat.cc:113-130 | The listing of a directory, the entries successive `readEntry` calls return, holds at most one entry per unit of fuel, plus one |
| DirectoryScanner.ReadFailureKeepsPointer | src/fat.cc:168-169 | An unreadable sector gives `ERR_READ` and leaves the pointer where it was |
| DirectoryScanner.LiveSlotReturned | src/fat.cc:184-202 | A live slot under the pointer is the entry returned; the pointer moves 32 bytes on, and `INF_LAST` is returned exactly when that move hits the chain's end |
| DirectoryScanner.FreeSlotSkipped | src/fat.cc:171-180 | A slot marked 0x00 or 0xE5 is skipped. `INF_STOP` comes only when moving past it hits the chain's end; otherwise scanning continues at the next slot |
| DirectoryScanner.ZeroMarkerDoesNotEndDirectory | src/fat.cc:171-180 | A 0x00 slot followed by a live slot yields the live slot's entry rather than the end of the directory |
| PathResolver.SplitFirst | src/fat.cc:103-109 | `strchr` splitting: the component holds no '/', and the path is the component, '/' and the rest when a '/' is present, or the component alone otherwise |
| PathResolver.RootDir | src/fat.cc:74-85 | The stand-in root is named "/", has attributes `ATTR_SYS` OR `ATTR_DIR`, the root cluster, size 0, and a reset pointer |
| PathResolver.Bind | src/fat.cc:63-137 | `bind` returns `INF_SUCCESS` exactly when following the path's components through the directory listings, from the base or the root stand-in, reaches a file, and then `*this` is that file. It returns `ERR_READ`, with `*this` only reset, exactly when some component has no match in a listing that runs to its end; it hangs exactly when that listing hits an unreadable sector |
| PathResolver.Components | src/fat.cc:96-109 | The components of a path are non-empty and hold no '/' |
| PathResolver.FirstMatchIsFirst | src/fat.cc:113-130 | The entry a lookup settles on is named by the component, and no entry listed before it is |
| PathResolver.SearchFindsFirst | src/fat.cc:113-130 | One lookup picks the first entry of the directory's listing that the component names, and continues from it with the fuel the passed entries left; with no such entry it ends as the listing does, `ERR_READ` when the directory is exhausted |
| PathResolver.BindPathResolves | src/fat.cc:87-135 | The outer loop of `bind` is the reference resolution of the path's components |
| PathResolver.StuckHasNoMatch | src/fat.cc:113-130 | A resolution stops at a component only where the components before it reached a directory whose listing has no entry that component names |
| PathResolver.NoMatchIsStuck | src/fat.cc:113-130 | Conversely, a component with no match in the listing of the directory its predecessors reached stops the resolution there |
| PathResolver.NotFoundHasUnmatched | src/fat.cc:115-128 | When `bind` returns `ERR_READ`, some component has no entry naming it in the listing of the directory the components before it reached, and that listing runs to the directory's end |
| PathResolver.UnmatchedIsNotFound | src/fat.cc:115-128 | Conversely, such an unmatched component makes `bind` return `ERR_READ` with `*this` only reset |
| PathResolver.SlashesNameBase | src/fat.cc:89-101 | An empty path, or one made only of '/', resolves to the base itself |
| PathResolver.LeadingSlashesIgnored | src/fat.cc:96-101 | Leading '/' characters do not change the outcome |
| PathResolver.ReadErrorHangs | src/fat.cc:115-116 | An unreadable first slot makes the lookup retry forever |
| PathResolver.BindIgnoresCase | src/fat.cc:119 | Two paths equal up to letter case resolve to the same outcome |
| PathResolver.SearchIgnoresCase | src/fat.cc:113-130 | The inner lookup loop gives the same outcome for components and remainders that are equal up to letter case |
| PathResolver.SearchFoundMatches | src/fat.cc:119-124 | A found last component names the entry returned, up to case, and that entry's pointer is reset |
| FileRead.Room | src/fat.cc:217 | `512 - i` in `unsigned` arithmetic: the room left in the sector for an offset up to 512, and above 512 for a larger offset |
| FileRead.ReadLoop | src/fat.cc:206-236 | The loop returns only `INF_SUCCESS` or `ERR_READ`, never produces more than `bytes` bytes, and produces exactly `bytes` on success |
| FileRead.Read | src/fat.cc:206-236 | `read` returns `INF_SUCCESS` or `ERR_READ`, and on success delivers exactly `bytes` bytes |
| FileRead.ReadPastSectorEnd | src/fat.cc:214-225 | From a byte offset past 512, a request of at most 512 bytes takes the wrapped room as larger than the request: it succeeds exactly when the sector is readable, delivers the sector's first `bytes` bytes and leaves the pointer in place |
| FileRead.ReadWithinSector | src/fat.cc:214-225 | A request that fits in the current sector succeeds exactly when the sector is readable. It delivers the sector's first `bytes` bytes and leaves the pointer in place |
| FileRead.ReadCopiesFromSectorStart | src/fat.cc:220 | With the pointer 32 bytes into a sector whose bytes 0 and 32 differ, a one-byte read returns byte 0, which is not what the intended read returns |
| FileRead.ReadFixed | src/fat.cc:206-236 | The corrected `read` has the same result codes and length guarantee |
| FileRead.ReadFixedWithinSector | src/fat.cc:214-225 | The corrected read of a request within the sector succeeds exactly when the sector is readable, returns the bytes at the pointer, and leaves the pointer in place |
| FileRead.AgreeFromSectorStart | src/fat.cc:210-232 | From a sector boundary, the source's `read` and the corrected one coincide for every length |
| FileRead.ReadDoesNotAdvanceWithinSector | src/fat.cc:223-225 | A read that fits in the sector does not move the pointer, so repeating it returns the same bytes |
| FileRead.ReadFollowsWalk | src/fat.cc:210-232 | Reading `k` whole sectors from a sector boundary along a readable walk succeeds. It yields the walked sectors in order and leaves the pointer at the last sector read |

## Left out

- The host: `open`, `close`, `pread`/`pwrite` and `printf`/`perror`
  diagnostics. The disk is a map from sector index to sector, and a read
  or write succeeds or fails only by that map and its set of unwritable
  sectors.
- `debugInfo`, the `FAT` destructor, the command-line front end, the
  commented-out `mknod` and the unimplemented `writeEntry`. None of them
  computes anything the core depends on.
- The `relative` argument of `seek`, which the source ignores.
- `activeFAT` and `mirroring` are decoded but not used for lookups: the
  source always reads the first FAT.
- `File::fat` is not modelled. The volume's `Geometry` and the `Disk` are
  explicit parameters of every operation instead.
- The `oemIdentifier`, `volumeLabel` and `systemIdentifier` text fields are
  decoded as C strings of their bytes (`strncpy`). No character set is
  modelled, and `tolower` is the "C" locale's, which changes only ASCII
  letters.
- `getFreeCluster` writing the hint back: the method returns the new hint
  rather than updating a mutable volume.
- PathResolver.Bind: the source's endless retry after `ERR_READ` is
  reported as `BindHangs` rather than looping. Chain walks and directory
  scans carry a `fuel` bound, and running out of it is an explicit outcome
  (`NoFuel`, `ScanOutOfFuel`, `BindOutOfFuel`) that the source does not
  have.
- PathResolver.Bind: requires a given base directory either to have first
  cluster 0, with its pointer anywhere (the scan then restarts at the root
  directory), or to have its pointer on a 32-byte slot boundary. From a
  pointer off a slot boundary the source reads entries that straddle two
  slots (src/fat.cc:171-193). From a byte offset of 512 or more, or when a
  live entry starts less than 32 bytes before the end of the sector, it
  reads past its 512-byte buffer. The model's slot-by-slot decoding
  represents neither.
- DirectoryScanner.ScanFrom: requires the pointer on a 32-byte slot
  boundary, for the same reason.
- FileRead.Read: requires the byte offset to be at most 512 or the
  request to be at most 512 bytes. A larger offset, which `seek` can
  produce, together with a longer request makes the source's `512 - i`
  wrap to a chunk longer than the sector, and its `memcpy` read past the
  sector buffer.
- FileRead.ReadLoop: the same requirement, for the same reason.
- BlockDevice.ReadSector: the store is keyed by the 32-bit sector index.
  The source reads from byte offset `start * 512` computed in 32-bit
  `unsigned` arithmetic (`ByteOffset`), so on a volume over 4 GiB sectors
  `n` and `n + 2^23` read the same bytes; here they are different sectors.
- BlockDevice.WriteSector: keyed the same way, so the aliasing of writes
  to sectors 2^23 apart is not modelled either.
- PathResolver.Bind: the path is a string of characters, and only
  characters 0..255 stand for the source's bytes. A path holding a larger
  character has no counterpart in the source.
- NameCodec.NameFrom83: bytes are read as characters 0..255 with no
  encoding. The C string it writes is modelled as the text before its
  terminating NUL.

## Findings

| source | as written | input that shows it | evidently intended | confidence | as-written member | corrected member |
|---|---|---|---|---|---|---|
| src/fat.cc:220 | `read` copies each chunk with `memcpy(dest, buf, avail)`, from the start of the sector buffer | A file pointer 32 bytes into a sector (left there by seek) whose bytes 0 and 32 differ: `read(dest, 1)` returns byte 0 | Copy from `buf + i`, the pointer's byte offset, so that a read continues where the pointer stands | not executed | FileRead.Read, FileRead.ReadCopiesFromSectorStart | FileRead.ReadFixed, FileRead.ReadFixedWithinSector, FileRead.ReadFollowsWalk |
