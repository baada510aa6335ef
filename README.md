# UnleashedRecomp core, modelled in Dafny

This project models five small parts of UnleashedRecomp, the PC port of an Xbox 360 game, and proves their properties:

- **XEX2 module loader** (`Loader`, loader.dfy). `LdrLoadModule` in main.cpp takes the bytes of an XEX2 executable and does four things:
  - it finds the security info at `securityOffset` from the start of the buffer;
  - it reads and byte-swaps the entry point;
  - it places the image in guest memory at `Translate(loadAddress)`. For NONE compression it copies the bytes as they are. For BASIC compression it reads a list of (dataSize, zeroSize) blocks, copying `dataSize` bytes and then writing `zeroSize` zeros for each;
  - it sets `g_xdbfWrapper` to a view of the resource region.

  Guest memory is an `array<bv8>` of `PPC_MEMORY_SIZE` bytes. The decoding loops are methods proved against the function `BasicDecode` and the write model `Overwrite`.
- **Command-line scan** (`CommandLine`, command_line.dfy). This is the `argv` loop at the start of `main`. It looks for `--install`, `--install-dlc` and `--sdl-video-driver <name>`; the last of these consumes its value.
- **Achievement record table** (`Achievements`, achievement_manager.dfy). This is a class over the fixed array of (ID, timestamp) records, whose live part ends at the first record with ID 0. It supports lookup, count, unlock into the first empty record, unlocking of all fifty achievements, and reset. The in-place methods are proved against the functions `PrefixLen`, `IndexOf`, `UnlockSpec` and `UnlockMany`. The table invariants (a packed prefix, no duplicate IDs) are proved about those functions.
- **Bit helpers** (`Framework`, framework.dfy). `RoundUp` and `RoundDown` are modelled on `bv32`, the width of their mask. `FirstBitLow<uint32_t>` is a method with its loop.
- **Save and game paths** (`Paths`, paths.dfy). Paths are sequences of components.
- **Guest address space** (`KernelMemory`, memory.dfy). This covers the `Memory` constructor and `MmGetHostAddress`. The constructor reserves the block and makes its first page inaccessible, which is modelled as an access map. It then installs every host function of the mapping table up to its sentinel, which is modelled as an ordered log of `InsertFunction` calls.

`Wrappers` (wrappers.dfy) holds the `Option` type.

Three behaviours of the code are worth noting:
- the loader never compares the number of decoded BASIC bytes with `imageSize`;
- an unknown compression type writes nothing and still sets up the resource view;
- `Unlock(0)` is not a no-op. ID 0 is never unlocked, so on a table with room it writes `(0, now)` into the first empty record. That record stays empty, so the count does not grow and a later `Unlock(0)` overwrites its timestamp.

## Model

| member | source | states |
|---|---|---|
| Loader.LdrLoadModule | UnleashedRecomp/main.cpp:113-161 | An empty buffer returns 0 and leaves guest memory as it was. Otherwise the entry point is the byte-swapped native read of the entry-point header, `g_xdbfWrapper` views `Translate(res->offset)` with `sizeOfData` bytes, and guest memory is the old memory with the image written at `Translate(loadAddress)` |
| Loader.LoadImage | UnleashedRecomp/main.cpp:128-154 | Guest memory becomes the old memory overwritten at `Translate(loadAddress)` by the raw image (NONE), by the decoded blocks (BASIC), or by nothing (any other type) |
| Loader.DecodeBasic | UnleashedRecomp/main.cpp:137-149 | The block loop writes exactly `BasicDecode(src, blocks)` from the destination on. By its invariants, the source cursor has advanced by the sum of `dataSize` and the destination cursor by the sum of `dataSize + zeroSize` after each block |
| Loader.DecodeBlock | UnleashedRecomp/main.cpp:142-148 | One block is a `memcpy` of `dataSize` source bytes followed by a `memset` of `zeroSize` zeros right after them |
| Loader.CopyBytes | UnleashedRecomp/main.cpp:133 | `memcpy` changes exactly the `n` destination bytes, which become the source bytes |
| Loader.ZeroFill | UnleashedRecomp/main.cpp:147 | `memset(…, 0, n)` changes exactly the `n` destination bytes, to zero |
| Loader.Overwrite | UnleashedRecomp/main.cpp:133 | A write keeps the memory size |
| Loader.OverwriteAt | UnleashedRecomp/main.cpp:133 | Within the written span memory holds the new bytes, and elsewhere the old ones |
| Loader.OverwriteAdjacent | UnleashedRecomp/main.cpp:142-147 | Two writes, one right after the other, equal one write of their concatenation |
| Loader.OverwriteThree | UnleashedRecomp/main.cpp:142-148 | Three adjacent writes equal one write of the concatenation |
| Loader.OverwriteEmpty | UnleashedRecomp/main.cpp:151-154 | Writing no bytes changes nothing |
| Loader.EntryIsBigEndian | UnleashedRecomp/main.cpp:125-126 | Byte-swapping the little-endian host read gives the big-endian value of the four stored bytes |
| Loader.LoadLE32 | UnleashedRecomp/main.cpp:125 | The host's native (little-endian) read of four stored bytes: byte `k` of the word is the `k`-th stored byte |
| Loader.ByteSwap32 | UnleashedRecomp/main.cpp:126 | `ByteSwapInplace` reverses the four bytes: byte `k` of the result is byte `3 - k` of the input |
| Loader.EntryExample | UnleashedRecomp/main.cpp:125-126 | The stored bytes `00 01 86 A0` give entry point 100000 |
| Loader.ReadBE16 | UnleashedRecomp/main.cpp:131 | A `be<uint16_t>` field such as `compressionType` is below 2^16 |
| Loader.Blocks | UnleashedRecomp/main.cpp:137 | `n` blocks, the `i`-th read big-endian from the 8-byte entry that follows the info header and the `i` entries before it |
| Loader.NumBlocks | UnleashedRecomp/main.cpp:138 | `numBlocks = infoSize / 8 - 1`: the count `n` with `8 * (n + 1) <= infoSize < 8 * (n + 2)`, so the info header and the `n` entries fit in `infoSize` bytes |
| Loader.SecurityInfo | UnleashedRecomp/main.cpp:123 | The security info's offset is counted from the start of the buffer. It is the 32-bit value whose base-256 digits, most significant first, are buffer bytes 16 to 19 |
| Loader.ReadBE32Digits | UnleashedRecomp/main.cpp:123 | A `be<uint32_t>` field's base-256 digits, most significant first, are its four stored bytes |
| Loader.BigEndianDigits | UnleashedRecomp/main.cpp:123 | Four bytes read most significant first are the base-256 digits of the 32-bit value |
| Loader.Destination | UnleashedRecomp/main.cpp:129 | `destData = Translate(security->loadAddress)`: the load address as an offset into guest memory, inside it |
| Loader.BasicDecode | UnleashedRecomp/main.cpp:140-149 | Decoding the first `n` blocks yields as many bytes as their `dataSize + zeroSize` together |
| Loader.BasicDecodeStep | UnleashedRecomp/main.cpp:140-149 | Blocks are decoded in index order: block `n-1` appends its data and then its zeros to what the earlier blocks produced |
| Loader.BasicDecodePrefix | UnleashedRecomp/main.cpp:140-149 | What the first `m` blocks produce is a prefix of what the first `n >= m` produce |
| Loader.SumMonotone | UnleashedRecomp/main.cpp:144-148 | The source and destination cursors only advance |
| Loader.BasicDecodeBlock | UnleashedRecomp/main.cpp:142-148 | In the decoded image, block `k`'s `dataSize` span at its destination offset (the sum of earlier blocks' sizes) equals the next unread source bytes (the sum of earlier `dataSize`s). The `zeroSize` span after it is all zeros |
| Loader.BlockSpan | UnleashedRecomp/main.cpp:142-148 | A block appended after the earlier blocks' output sits at its offset |
| Loader.ExtendBlock | UnleashedRecomp/main.cpp:140-149 | Later blocks do not disturb an earlier block's span |
| Loader.BasicDecodeExample | UnleashedRecomp/main.cpp:140-149 | Blocks (4,4), (4,0) over `AA BB CC DD EE FF 00 11` give `AA BB CC DD 00 00 00 00 EE FF 00 11` |
| Loader.Image | UnleashedRecomp/main.cpp:131-154 | The placed image fits guest memory |
| Loader.NoneCopiesImage | UnleashedRecomp/main.cpp:128-133 | With NONE, guest byte `loadAddress + j` becomes buffer byte `headerSize + j` for every `j < imageSize` |
| Loader.BasicPlacesBlocks | UnleashedRecomp/main.cpp:135-149 | With BASIC, the image is the sum of all blocks' sizes long and every block sits in it at its offset |
| Loader.UnknownWritesNothing | UnleashedRecomp/main.cpp:151-154 | An unknown compression type writes no guest byte |
| Loader.LoadKeepsOutside | UnleashedRecomp/main.cpp:128-150 | Guest bytes outside `[loadAddress, loadAddress + image length)` are unchanged |
| CommandLine.ParseArgs | UnleashedRecomp/main.cpp:203-215 | The loop returns the flags and driver set by the arguments it examines from position 1 on |
| CommandLine.Examined | UnleashedRecomp/main.cpp:203-211 | The examined positions are increasing, lie inside `argv` and start at the first position |
| CommandLine.Step | UnleashedRecomp/main.cpp:205-211 | Examining from `i` is examining `argv[i]` and then going on after its value, if it takes one |
| CommandLine.ExaminedOrConsumed | UnleashedRecomp/main.cpp:208-211 | Each position is either examined as an option or is the value of the examined `--sdl-video-driver` just before it, never both |
| CommandLine.HasIff | UnleashedRecomp/main.cpp:205-206 | A flag is set iff some examined position holds it |
| CommandLine.DriverIsLast | UnleashedRecomp/main.cpp:208-211 | The driver is unset iff no examined `--sdl-video-driver` has a value. Otherwise it is the value of the last one that has |
| CommandLine.Latest | UnleashedRecomp/main.cpp:211 | A later driver value overrides an earlier one, and its absence keeps the earlier one |
| CommandLine.ValueIsNotAnOption | UnleashedRecomp/main.cpp:208-211 | `app --sdl-video-driver --install` selects driver `--install` and forces no installer |
| CommandLine.TrailingOptionIgnored | UnleashedRecomp/main.cpp:210-213 | A trailing `--sdl-video-driver` keeps the earlier driver, or leaves none |
| Achievements.AchievementManager.GetTimestamp | UnleashedRecomp/user/achievement_manager.cpp:9-21 | Returns the timestamp of the first record of `id` before the first empty record, or 0 when there is none |
| Achievements.AchievementManager.GetTotalRecords | UnleashedRecomp/user/achievement_manager.cpp:23-36 | Returns the number of records before the first empty one. It is at most the capacity; all records below it are non-empty and the one at it is empty |
| Achievements.AchievementManager.IsUnlocked | UnleashedRecomp/user/achievement_manager.cpp:38-50 | True iff `id` occurs before the first empty record; never for ID 0 |
| Achievements.AchievementManager.Unlock | UnleashedRecomp/user/achievement_manager.cpp:52-65 | The records become `UnlockSpec(old records, id, now)` |
| Achievements.AchievementManager.UnlockAll | UnleashedRecomp/user/achievement_manager.cpp:71-83 | The records become those after unlocking `LoopIds(24)` one by one |
| Achievements.AchievementManager.Reset | UnleashedRecomp/user/achievement_manager.cpp:85-106 | Every record is empty and the count is 0. The four shoe-upgrade flags in guest memory become 0, and no other guest byte changes |
| Achievements.AchievementManager.constructor | UnleashedRecomp/user/achievement_manager.cpp:7 | A freshly allocated table of `NUM_RECORDS` empty records, which the caller may go on to update |
| Achievements.PrefixLen | UnleashedRecomp/user/achievement_manager.cpp:27-33 | The count is the position of the first empty record, or the capacity |
| Achievements.IndexOf | UnleashedRecomp/user/achievement_manager.cpp:11-18 | The scan stops at the first match or at the first empty record, and passes no match before it |
| Achievements.PrefixLenAt | UnleashedRecomp/user/achievement_manager.cpp:27-33 | The count is fixed by the first empty position |
| Achievements.PrefixLenAtLeast | UnleashedRecomp/user/achievement_manager.cpp:11-18 | Records passed before the first empty one lie inside the counted prefix |
| Achievements.IndexOfAt | UnleashedRecomp/user/achievement_manager.cpp:11-18 | A scan stopping at `i` found `IndexOf`, and found a live record iff position `i` is non-empty |
| Achievements.UnlockNoRoomOrKnown | UnleashedRecomp/user/achievement_manager.cpp:54-65 | On an already-unlocked ID or a full table, `Unlock` changes nothing |
| Achievements.UnlockNew | UnleashedRecomp/user/achievement_manager.cpp:57-65 | A new non-zero ID into a packed table with room fills exactly the first empty record with `(id, now)`. The count grows by one, no other record changes, and the ID is now unlocked |
| Achievements.UnlockIdempotent | UnleashedRecomp/user/achievement_manager.cpp:52-65 | Unlocking the same non-zero ID twice, at any two times, equals unlocking it once |
| Achievements.UnlockZero | UnleashedRecomp/user/achievement_manager.cpp:38-65 | On a table with room, `Unlock(0)` writes `(0, now)` into the first empty record. The count and the set of unlocked IDs stay as they were |
| Achievements.SamePrefixUnlocked | UnleashedRecomp/user/achievement_manager.cpp:40-47 | Whether an ID is unlocked depends only on the records before the first empty one |
| Achievements.UnlockPreservesInvariants | UnleashedRecomp/user/achievement_manager.cpp:52-65 | `Unlock` keeps the non-zero IDs a packed prefix and free of duplicates |
| Achievements.UnlockMonotone | UnleashedRecomp/user/achievement_manager.cpp:52-65 | `Unlock` never removes an unlocked ID and never lowers the count |
| Achievements.UnlockGrowsByAtMostOne | UnleashedRecomp/user/achievement_manager.cpp:57-65 | On a packed table one unlock adds at most one record |
| Achievements.UnlockKeepsLength | UnleashedRecomp/user/achievement_manager.cpp:57-65 | The table's capacity never changes |
| Achievements.UnlockManyMonotone | UnleashedRecomp/user/achievement_manager.cpp:71-83 | A run of unlocks never removes an unlocked ID |
| Achievements.UnlockManyUnlocks | UnleashedRecomp/user/achievement_manager.cpp:71-83 | Unlocking a list of IDs into a packed, duplicate-free table with room keeps both invariants and the capacity. It adds at most one record per ID and leaves every non-zero listed ID unlocked |
| Achievements.SkipGaps | UnleashedRecomp/user/achievement_manager.cpp:75-79 | The skips never move the counter backwards. From any counter in a run of achievement IDs, or in a gap before one, they land on the next achievement ID with none skipped over |
| Achievements.LoopStep | UnleashedRecomp/user/achievement_manager.cpp:73-82 | One turn of the loop unlocks `SkipGaps(i)` and goes on from the next counter |
| Achievements.LoopIdsMembers | UnleashedRecomp/user/achievement_manager.cpp:73-82 | From counter `i`, the loop visits exactly the achievement IDs at or above `i` |
| Achievements.LoopIdsLength | UnleashedRecomp/user/achievement_manager.cpp:73-82 | The number of IDs the loop still visits from counter `i` |
| Achievements.LoopIdsSorted | UnleashedRecomp/user/achievement_manager.cpp:73-82 | The loop visits IDs in increasing order |
| Achievements.UnlockAllIds | UnleashedRecomp/user/achievement_manager.cpp:73-82 | `UnlockAll` visits exactly 24-29, 31-54 and 64-83 in increasing order: fifty IDs, none twice |
| Achievements.UnlockAllUnlocksEveryId | UnleashedRecomp/user/achievement_manager.cpp:71-83 | On a valid table with room for fifty more records, every achievement ID is unlocked afterwards |
| Achievements.ResetTableValid | UnleashedRecomp/user/achievement_manager.cpp:87 | A cleared table is packed, free of duplicates, has count 0 and has no ID unlocked |
| Framework.RoundDown | UnleashedRecomp/framework.h:30-34 | The result is aligned to `r` and not above `v` |
| Framework.RoundUp | UnleashedRecomp/framework.h:24-28 | The result is aligned to `r` and equals rounding `v + r - 1` down, with 32-bit wrap-around |
| Framework.RoundDownBounds | UnleashedRecomp/framework.h:30-34 | For a power of two `r`, `RoundDown(v, r)` is aligned to `r`, is at most `v`, and is less than `r` below it |
| Framework.RoundUpBounds | UnleashedRecomp/framework.h:24-28 | For a power of two `r` with no wrap-around in `v + r - 1`, `RoundUp(v, r)` is aligned to `r`, is at least `v`, and is less than `r` above it |
| Framework.RoundingFixesAligned | UnleashedRecomp/framework.h:24-34 | An aligned value is left alone by both roundings |
| Framework.RoundingIdempotent | UnleashedRecomp/framework.h:24-34 | Both roundings are idempotent, and `RoundUp(v, r) == RoundDown(v + r - 1, r)` |
| Framework.FirstBitLow | UnleashedRecomp/framework.h:54-70 | For a non-zero value, returns the index of a set bit with every lower bit clear. For 0 it returns 0, and the result is always below 32 |
| Framework.AllClearIsZero | UnleashedRecomp/framework.h:69 | A value with none of its 32 bits set is 0, so falling out of the loop means the value was 0 |
| Paths.GetGamePath | UnleashedRecomp/user/paths.h:10-14 | With `HOME` set, the result is `HOME/.local/share/UnleashedRecomp`; otherwise it is the executable's directory |
| Paths.GetSavePath | UnleashedRecomp/user/paths.h:21-27 | With a mod save path in use, its parent; otherwise `GetUserPath()/save` |
| Paths.GetSaveFilePath | UnleashedRecomp/user/paths.h:31-37 | With a mod save path in use, that path verbatim; otherwise `GetUserPath()/save/SYS-DATA` |
| Paths.SaveFileInSaveDirectory | UnleashedRecomp/user/paths.h:21-37 | For every input, the parent of the save file path is the save path |
| Paths.SaveFileNameIsSysData | UnleashedRecomp/user/paths.h:29-36 | Without a mod save path, the file name is `SYS-DATA` |
| Paths.ModSaveFileNameMayDiffer | UnleashedRecomp/user/paths.h:29-34 | With a mod save path, the file name is the mod's and need not be `SYS-DATA` |
| Paths.Join | UnleashedRecomp/user/paths.h:13 | `p / c` appends one component |
| Paths.Parent | UnleashedRecomp/user/paths.h:24 | `parent_path()` drops the last component |
| Paths.ParentOfJoin | UnleashedRecomp/user/paths.h:24-36 | The parent of `p / c` is `p` |
| KernelMemory.Memory.constructor | UnleashedRecomp/kernel/memory.cpp:4-22 | The block spans the guest address space, bytes `[0, 4096)` have no access and all others are read-write. The log of installed functions is `Installed(table)`: the non-null entries before the sentinel, in table order |
| KernelMemory.Memory.InsertFunction | UnleashedRecomp/kernel/memory.cpp:20 | One call appends one redirect to the log |
| KernelMemory.Memory.GuardPage | UnleashedRecomp/kernel/memory.cpp:10-14 | A guest address below 4096 has no access, and every other one is read-write |
| KernelMemory.Reserve | UnleashedRecomp/kernel/memory.cpp:7-12 | The reserved block is all read-write |
| KernelMemory.Protect | UnleashedRecomp/kernel/memory.cpp:10-14 | Protection changes exactly the given span |
| KernelMemory.BeforeSentinel | UnleashedRecomp/kernel/memory.cpp:17 | The walk visits a prefix of the table, every entry in it has a non-zero guest address, and it stops at the first zero one |
| KernelMemory.SentinelBoundsWalk | UnleashedRecomp/kernel/memory.cpp:17 | A table with a sentinel is walked to the sentinel and no further |
| KernelMemory.InstalledIff | UnleashedRecomp/kernel/memory.cpp:17-21 | A redirect is installed iff some entry before the sentinel carries it with a non-null host, so nothing at or after the sentinel is installed |
| KernelMemory.HostedMembers | UnleashedRecomp/kernel/memory.cpp:19-20 | A redirect is in the log of a run of entries iff one of them carries it with a non-null host |
| KernelMemory.HostedAppend | UnleashedRecomp/kernel/memory.cpp:17-21 | The log of two runs of entries is the log of the first followed by that of the second |
| KernelMemory.HostedLength | UnleashedRecomp/kernel/memory.cpp:19-20 | The log has one redirect per non-null host |
| KernelMemory.HostedPosition | UnleashedRecomp/kernel/memory.cpp:17-21 | Entry `j`'s redirect sits in the log after those of the non-null entries before it, in table order |
| KernelMemory.HostedCountMonotone | UnleashedRecomp/kernel/memory.cpp:17-21 | Log positions grow along the table |
| KernelMemory.FirstRegisteredFirstInstalled | UnleashedRecomp/kernel/memory.cpp:17-21 | Of two non-null entries before the sentinel, the earlier one is installed first |
| KernelMemory.Translate | UnleashedRecomp/kernel/memory.cpp:26 | A guest address maps to the same offset in the block, inside the block |
| KernelMemory.MmGetHostAddress | UnleashedRecomp/kernel/memory.cpp:24-27 | `MmGetHostAddress(p)` is `Translate(p)` |

## Left out

- File and OS I/O are not modelled: `LoadFile`, `ReadAllBytes`, `FileExists`, `DirectoryExists`, `getenv`, `VirtualAlloc`/`mmap` and their protection calls, and `std::filesystem` checks and copies. Each becomes an input or, for memory protection, an access map.
- `AchievementManager::Load` and `Save` are left out. They are file I/O around signature, version and checksum routines that are not part of this model.
- The achievement overlay and the notification setting in `Unlock` are left out; they are user interface.
- Achievements.AchievementManager.Unlock: the wall clock is the parameter `now`.
- Achievements.AchievementManager.UnlockAll: uses one `now` for all fifty unlocks, while the source reads the clock once per unlock.
- Achievements.AchievementManager.Reset: clears only the records of `Data`. The other fields of `AchievementData` are not modelled. It requires the record table and guest memory to be distinct arrays, which they are in the program.
- `NUM_RECORDS` is defined in achievement_manager.h, which is not part of this model. The capacity is the array length given to the constructor.
- `xex.h` is not part of this model. The `Xex2*` field offsets are constants taken from the XEX2 format, and `getOptHeaderPtr` is the input `OptHeaders`, which gives buffer offsets for the three keys.
- Loader.LdrLoadModule: requires that every header field it reads lies inside the buffer and that every copy fits both the buffer and guest memory (`WellFormed`). The source checks none of this.
- Loader.LdrLoadModule: requires `infoSize >= 8` for BASIC. Otherwise `numBlocks` wraps around in `size_t`, and what the source then does (read past the buffer) is not modelled.
- Loader.LdrLoadModule: the debug-build `assert`s (empty buffer, unknown compression type) are left out; the release behaviour is modelled.
- The number of decoded bytes is never compared with `imageSize`, in the source or in the model.
- `XDBFWrapper` is reduced to its (address, size) pair. Its lookups are not modelled.
- Loader.LdrLoadModule: `g_xdbfWrapper` is returned as `xdbf` rather than assigned to a global.
- CommandLine.ParseArgs: the warning logged for a `--sdl-video-driver` without a value is left out. `strcmp` is modelled as string equality, and `argc` is taken to fit in 32 bits.
- The rest of `main`, `HostStartup`, `KiSystemStartup` and the CPUID check are startup plumbing and are left out.
- Framework.RoundDownBounds: "a multiple of `r`" is stated as "the bits below `r`'s bit are clear", which is the same thing for a power of two.
- Framework.RoundUpBounds: holds only when `v + r - 1` does not wrap at 32 bits.
- RoundUp and RoundDown are modelled at 32-bit width only. At 64 bits the 32-bit mask would also clear bits 32-63, so the properties do not carry over.
- Framework.FirstBitLow: modelled for `uint32_t` only.
- `StringHash`, `PROC_ADDRESS` and `LIB_FUNCTION` are foreign calls and macros, and are left out.
- Paths.GetGamePath: `GetUserPath`, `BuildUserPath` and `CheckPortable` are not part of this model. The user path and `ModLoader::s_saveFilePath` are inputs. `std::filesystem` joining rules are not modelled (for example, that joining an absolute path replaces the left side).
- KernelMemory.Memory.constructor: requires the mapping table to hold its zero-address sentinel, since the walk would otherwise run past its end. Allocation failure is not modelled.
- `Memory::Translate` and `InsertFunction` are defined in memory.h, which is not part of this model. `Translate` is the identity on offsets into the block and `InsertFunction` appends to a log. `MmGetHostAddress` returns that offset rather than a host pointer.
- KernelMemory.Memory.GuardPage: assumes 4 KiB host pages. `VirtualProtect` and `mprotect` act on whole host pages, so on a host with 16 KiB or 64 KiB pages more than the first 4096 bytes lose access.
- Nothing in this core is concurrent.
