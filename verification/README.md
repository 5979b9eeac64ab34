# Verified model of an overlay runtime for microcontrollers

The runtime pages code modules ("overlays") from external flash into RAM slots and runs them, streams
assets from the same flash, and shares the flash between tasks. This project models that stack in Dafny and
proves what the layers promise to each other, up to the question the whole system turns on: which bytes can a
call execute, when any number of tasks call, prefetch and evict while others rewrite flash?

`dafny verify dfyconfig.toml` checks everything.

## Layout

| files | what they hold |
|---|---|
| `Bytes`, `Gf2`, `Iteration` | machine integers, little-endian codecs, bit vectors as polynomials over GF(2) |
| `Crc`, `CrcTheory` | the table-driven CRC32 loop, its bit-serial and polynomial-division meaning, error detection |
| `Header`, `Decoders`, `Storage` | the on-flash records, what their decoders accept and where every field lies; storage as seen by its readers, simulated NOR flash |
| `Overlay`, `LoadAnswers`, `OverlayRuns`, `WorkingSet` | the overlay manager as a class and as functions; what it answers, what every run of it keeps |
| `Engine`, `RegistryRuns`, `Discovery`, `MountAnswers` | the engine class, the registry as a bounded map, mounting and its refusals |
| `Packer`, `PackedImages`, `ImageBytes` | the overlay packer; pack, mount, load round trip; both packers' files byte by byte |
| `Vfs`, `VfsAnswers`, `VfsImages` | the VFS reader and packer; what it answers; pack, mount, read round trip |
| `LruTheory`, `SectorCache`, `SectorRuns` | LRU in general, the sector cache, and that the one is the other |
| `Block`, `BlockLoads`, `Partition` | the block adapter as a flat byte array and as the overlay manager's storage; partitions as private arrays |
| `Tasks`, `TaskRuns`, `TaskSafety`, `TaskHistory`, `TaskFlash`, `TaskLiveness` | tasks, locks, flash writes and cache fetches as a step system; safety, where executed bytes come from, what flash holds, liveness |
| `EndToEnd` | from packed image to executed byte, under every interleaving |

Classes follow the source's structs and loops; each method is proved equal to a function of the old state, and
the theorems are about those functions. The same functions are the pieces the step system is built from. What they
answer is stated once more in numbers and bytes, without them: `Decoders`, `ImageBytes` and the `...Answer` lemmas.

## Assumptions

Each is explicit in a `requires` clause or a type, and the named lemma shows what happens without it.

- A storage read that fails leaves the buffer unchanged (`Storage.CleanFaults`; in the step system a payload read
  can be refused only before its first byte). `src/mock.rs:57-61` behaves so. The block adapter,
  `src/block.rs:132-167`, does not, even over a device whose operations are all or nothing: it serves a read piece
  by piece, and an error part-way leaves the pieces served. It behaves so for a read inside one block and for whole
  blocks from a block boundary, and for no other read (`Block.NeverTornIff`, `BlockLoads.CleanIffOneOperation`). A
  failed payload read returns at `src/overlay/mod.rs:204-207` without evicting, so the slot then claims its old
  module over other bytes and calls of that module go on: `BlockLoads.FirstBlockTears` for 512-byte blocks,
  `OverlayRuns.TornReadBreaksBacking` for any driver that fails half-way. What `OverlayRuns` proves of runs holds
  over the adapter while each payload read is of those kinds (`BlockLoads.AdapterRunIsRun`), and exactly when one
  load is spared is `BlockLoads.BlockLoadBackedIff`. For the sector cache the condition is
  `SectorRuns.TornReadAgreesIff`. Writing and then restoring is not enough under an instruction cache:
  `OverlayRuns.RestoringLeavesStaleLine`. A load future dropped in the middle of a read is outside the model for the
  same reason.
- Block operations are all or nothing (`Block.BlockDevice`).
- The 64-bit generation counters do not wrap nor, where slots are selected, come to their maximum
  (`OverlayRuns.SelectionFailsIffAllPinned`). A use that wraps keeps the order if and only if nothing else is held:
  `SectorRuns.HitKeepsOrderIff`, `OverlayRuns.TouchStampedIff`; one case is `SectorRuns.WrappedCounterBreaksLru`.
- u32 sums that may overflow wrap, as in release builds. The sequential scan then stands still for four code sizes
  (`Discovery.WrappingStepStalls`), and otherwise rises exactly when `Discovery.ChainRises` says. The capacity of a
  block device is cut to u32, as at `src/block.rs:123` (`Block.InBounds`); partitions are proved isolated on devices
  below 4 GiB.
- `usize` has 32 bits: buffers and payloads are shorter than 4 GiB.
- Directory offsets count from the start of the image whatever base it is mounted at (`src/embassy/engine.rs:113`),
  while sequential discovery registers absolute offsets (`src/embassy/engine.rs:127`): `PackedImages.MountPacked`
  says where the containers then are, and the full round trip is stated for base 0. An image that starts beyond its
  own length in erased flash mounts, and then nothing it registered loads: `PackedImages.MountedHigherDoesNotLoad`.
- Nothing compares a header's entry offset with its code size (`src/overlay/mod.rs:188-199`), so a call can start
  outside the payload that was checked: exactly when `OverlayRuns.CallStartsInPayloadIff` says, as
  `PackedImages.EntryOutsideSlot` shows.
- Callers do not go around the caches through `device_mut`, `storage_mut` or `inner`, and use one `flash_base_addr`
  with one sector cache.

## Model

| member | source | states |
|---|---|---|
| Crc.MakeTable | src/crc.rs:7-25 | the nested loops fill entry i with eight bit steps of i |
| Crc.ComputeCrc32 | src/crc.rs:31-38 | the table loop computes `Crc32`, whose meaning the rows below give |
| CrcTheory.CheckValue | src/crc.rs:60-63 | the CRC of "123456789" is 0xCBF43926 and that of nothing is 0 |
| CrcTheory.TableStepIsEightSteps | src/crc.rs:33-36 | one table lookup is eight steps of the bit-serial register |
| CrcTheory.UpdateIsSerial | src/crc.rs:31-38 | the byte loop is the bit-serial register over the transmitted bits |
| CrcTheory.GeneratorIsPoly | src/crc.rs:4-4 | the constant is the IEEE 802.3 generator, section 3.2.9, low bit first |
| CrcTheory.CrcIsDivision | src/crc.rs:31-38 | the CRC is the remainder of polynomial division of the message, its first 32 bits complemented, by the generator |
| Crc.StepLinear | src/crc.rs:14-18 | the bit step distributes over XOR |
| Crc.UnStepInverse | src/crc.rs:14-18 | the bit step has an explicit inverse, so no information is lost |
| Crc.SerialBurst | src/crc.rs:31-38 | from one register, two different bursts of at most 32 bits never meet in one register |
| CrcTheory.BurstDetected | src/crc.rs:31-38 | messages of one length that differ only in a burst of at most 32 bits have different CRCs |
| CrcTheory.FourByteWindow | src/crc.rs:31-38 | messages that differ only inside four consecutive bytes have different CRCs |
| CrcTheory.SealedCheck | src/header.rs:57-58 | a message ends in its own CRC if and only if the CRC of the whole is 0x2144DF1C |
| CrcTheory.UpdateConcat | src/crc.rs:31-38 | the CRC of a concatenation continues from the register of its first part |
| Header.ToBytes | src/header.rs:63-75 | the nine copies produce the encoding the decoder is proved against |
| Header.HeaderFieldsRoundTrip | src/header.rs:63-114 | every field survives encoding, whatever bytes follow |
| Header.NewHeaderRoundTrip | src/header.rs:39-114 | a newly created header decodes to itself |
| Header.DecodedHeaderReencodes | src/header.rs:63-114 | whatever is accepted is exactly the encoding of what is returned |
| Header.AcceptedIffSealed | src/header.rs:98-101 | with the right magic and version, 32 bytes are accepted if and only if their CRC is 0x2144DF1C |
| Header.DamagedHeaderRejected | src/header.rs:98-101 | an accepted header changed inside four consecutive bytes, CRC field included, is rejected |
| Header.BurstHeaderRejected | src/header.rs:98-101 | the same for any burst of at most 32 bits |
| Header.ContainerCrcIgnoresHeader | overlay-packer/src/main.rs:281-281 | the CRC of valid header plus payload depends on the payload alone |
| Header.DirectoryRoundTrip | src/header.rs:268-325 | a directory header decodes to what was encoded |
| Header.EntryRoundTrip | src/header.rs:341-361 | a directory entry decodes to what was encoded |
| Header.SuperblockRoundTrip | src/header.rs:143-204 | a VFS superblock decodes to what was encoded |
| Header.AssetRoundTrip | src/header.rs:221-244 | an asset entry decodes to what was encoded |
| Decoders.HeaderAnswer | src/header.rs:78-114 | on any 32 bytes: which error and exactly when, acceptance if and only if magic, version 1 and a constant CRC of all 32, and each field as a number in its bytes |
| Decoders.DirectoryAnswer | src/header.rs:294-325 | the same for a directory, sealed over its first 20 bytes |
| Decoders.SuperblockAnswer | src/header.rs:171-204 | the same for a VFS superblock, sealed over its first 24 bytes |
| Decoders.ShortBuffers | src/header.rs:79-81 | a buffer shorter than a record is refused as a storage error |
| Decoders.EntryFields | src/header.rs:350-361 | each field of a directory entry as a number in its bytes |
| Decoders.AssetFields | src/header.rs:231-244 | the same for an asset entry |
| Decoders.NewHeaderFields | src/header.rs:39-75 | a new header's bytes: magic, version, no flags, every field in its place, sealed |
| Decoders.EncodedDirectory | src/header.rs:268-291 | the same for an encoded directory |
| Decoders.EncodedEntry | src/header.rs:341-350 | the same for an encoded directory entry |
| Decoders.EncodedSuperblock | src/header.rs:143-170 | the same for an encoded superblock |
| Decoders.EncodedAsset | src/header.rs:221-232 | the same for an encoded asset entry |
| Decoders.BurstDirectoryRefused | src/header.rs:310-313 | an accepted directory hit by a burst of at most 32 bits in its sealed bytes is refused, by the checksum if magic and version survive |
| Decoders.BurstSuperblockRefused | src/header.rs:189-192 | the same for a superblock |
| Storage.MockFlash.constructor | src/mock.rs:29-33 | new flash is erased |
| Storage.MockFlash.Read | src/mock.rs:55-62 | bytes or an out-of-bounds error with the buffer untouched |
| Storage.MockFlash.Erase | src/mock.rs:75-86 | bounds, then alignment, then exactly the range is 0xFF; errors change nothing |
| Storage.MockFlash.Write | src/mock.rs:88-98 | bits are only cleared, only in range; errors change nothing |
| Overlay.OverlayManager.constructor | src/overlay/mod.rs:50-57 | fresh slots and a zero counter |
| Overlay.OverlayManager.FindResidentSlot | src/overlay/mod.rs:85-92 | the first slot holding the module |
| Overlay.OverlayManager.SelectEvictionSlot | src/overlay/mod.rs:124-144 | both loops compute `SelectSlot` |
| Overlay.Selection | src/overlay/mod.rs:124-144 | the first empty unpinned slot; without one, an unpinned slot no newer than any other; fails if and only if no unpinned slot is empty or below the counter's maximum |
| Overlay.OverlayManager.NextGeneration | src/overlay/mod.rs:146-149 | the counter wraps at 2^64 and nothing else changes |
| Overlay.OverlayManager.ReadHeader | src/overlay/mod.rs:173-199 | header read and every refusal, in order, before anything changes |
| Overlay.OverlayManager.Stream | src/overlay/mod.rs:201-207 | the buffer's first bytes become what storage left there, also on failure |
| Overlay.OverlayManager.Verify | src/overlay/mod.rs:209-229 | evicts on a checksum mismatch, else hook, generation, residency |
| Overlay.OverlayManager.EnsureLoaded | src/overlay/mod.rs:162-230 | the whole operation is `EnsureResident` for whatever storage answers to each of the two reads |
| Overlay.OverlayManager.Evict | src/overlay/mod.rs:100-107 | empties the slot of the module and says whether there was one |
| Overlay.OverlayManager.PinSlot | src/overlay/mod.rs:110-114 | sets the pin or reports a bad index |
| Overlay.OverlayManager.UnpinSlot | src/overlay/mod.rs:117-121 | clears the pin or reports a bad index |
| Overlay.OverlayManager.CallTyped | src/overlay/mod.rs:245-280 | refuses a slot that does not hold the module; otherwise is entered at the 32-bit sum of execution address and entry offset with its lowest bit set, and runs what instruction fetches of the slot return |
| Overlay.InstructionCache.CodeLoaded | src/overlay/sync.rs:65-68 | the hook leaves no stale line and is counted |
| LoadAnswers.HitAnswer | src/overlay/mod.rs:167-171 | a resident module is answered with its slot; nothing is read, and only its generation changes |
| LoadAnswers.HeaderRefusals | src/overlay/mod.rs:173-199 | before the payload read, each refusal in terms of the header's bytes and the selected slot, in order, with nothing changed |
| LoadAnswers.PayloadAnswer | src/overlay/mod.rs:201-229 | the payload is read behind the header; from there a load fails exactly on a failed read or another checksum than the header's, and reports both checksums |
| LoadAnswers.CallAnswer | src/overlay/mod.rs:270-280 | a call is let through exactly if its slot exists and holds the module, and is otherwise refused by cause |
| LoadAnswers.EvictAnswer | src/overlay/mod.rs:100-107 | eviction answers whether the module was resident, and empties a slot that held it or nothing |
| LoadAnswers.PinAnswer | src/overlay/mod.rs:110-121 | pinning fails exactly for an index no slot has, and changes that pin alone |
| OverlayRuns.EnsureGood | src/overlay/mod.rs:162-230 | one load keeps residents unique, generations distinct and cached lines in agreement with RAM, whatever storage answers, as long as failed payload reads leave the buffer alone |
| OverlayRuns.EnsureBacked | src/overlay/mod.rs:173-229 | and leaves every resident slot with the payload its own last load read, under the header that load read, whose checksum that payload has |
| OverlayRuns.MarkBackedIffChecked | src/overlay/mod.rs:209-227 | marking a slot resident without the checksum test keeps that if and only if the checksum matches |
| OverlayRuns.RunGood | src/overlay/mod.rs:100-230 | every run from fresh slots: no module in two slots, distinct generations at most the counter, every resident slot backed by what its last load was answered, cached lines that agree with RAM, generations that order modules by use |
| OverlayRuns.ResidentWasLoaded | src/overlay/mod.rs:173-229 | every resident slot was loaded by one operation of the run, is recorded with that operation's two answers, and has not been written since |
| OverlayRuns.CallRunsVerifiedCode | src/overlay/mod.rs:270-280 | for a call that is let through, in every reachable state: an operation that asked for this module read a valid header of it and a payload with that header's checksum, the slot is as that left it, and fetches inside the payload return its bytes |
| OverlayRuns.CallStartsInPayloadIff | src/overlay/mod.rs:242-267 | the call starts inside the payload that operation read and checked if and only if the header it read has an entry offset below its code size |
| OverlayRuns.CallEntersThumb | src/overlay/sync.rs:148-157 | in every reachable state a call of a resident module is entered one past an even address, its execution address plus entry offset |
| OverlayRuns.HookOncePerLoad | src/overlay/mod.rs:219-229 | the hook runs once for a load that succeeds, never otherwise, and empties the cache |
| OverlayRuns.FailedLoadTouchesOnlyVictim | src/overlay/mod.rs:185-217 | a failed load changes at most the selected slot, which keeps its module or is emptied |
| OverlayRuns.LoadSucceedsIff | src/overlay/mod.rs:162-230 | a load succeeds if and only if header, identifier, capacity, alignment, payload read and checksum all fit the one selected slot; that another slot is large enough does not help |
| OverlayRuns.EnsureKeeps | src/overlay/mod.rs:162-230 | any load keeps module, entry, pin and RAM of every slot it does not select |
| OverlayRuns.BurstPayloadRefused | src/overlay/mod.rs:209-217 | a payload hit by a burst of at most 32 bits fails the load and its module is nowhere resident |
| OverlayRuns.DamagedPayloadRefused | src/overlay/mod.rs:209-217 | the same for damage confined to four consecutive bytes |
| OverlayRuns.VictimIsLeastRecent | src/overlay/mod.rs:124-144 | loads go into the first empty unpinned slot, else over the least recently used module of the unpinned slots |
| OverlayRuns.SelectionFailsIffAllPinned | src/overlay/mod.rs:124-144 | no slot is found if and only if all are pinned, or all but one whose module has the counter's maximum as its generation, which a counter with room rules out |
| OverlayRuns.TouchStampedIff | src/overlay/mod.rs:146-171 | a use keeps generations distinct and at most the counter if and only if the counter does not wrap or no other slot is resident |
| OverlayRuns.PinnedThroughRun | src/overlay/mod.rs:110-121 | a pinned slot keeps module, entry offset and RAM through any run that neither unpins it nor evicts its module |
| OverlayRuns.TornReadLeavesGarbage | src/overlay/mod.rs:204-207 | after a payload read that fails half-way the slots are unchanged over torn RAM; nothing changed if and only if the read left the buffer alone |
| OverlayRuns.TornReadBreaksBacking | src/overlay/mod.rs:204-207 | and the victim stays backed if and only if it was empty or the bytes left behind are those of the payload it still claims |
| OverlayRuns.RestoringLeavesStaleLine | src/overlay/mod.rs:201-221 | a failed read that put the old bytes back can still leave a stale cached line of a resident module |
| WorkingSet.WorkingSetLoadsOnce | src/overlay/mod.rs:124-171 | from empty slots, a successful run asking for no more distinct modules than there are unpinned slots loads each once and keeps them all |
| WorkingSet.NewestChosenIffOnlyUnpinned | src/overlay/mod.rs:124-144 | the module used last is the victim if and only if its slot is the only unpinned one |
| WorkingSet.PrefetchSparesCalled | src/embassy/pipeline.rs:25-27 | with another unpinned slot a prefetch never moves, changes or evicts the module just called |
| Engine.EmbassyOverlayEngine.constructor | src/embassy/engine.rs:62-67 | an empty registry |
| Engine.EmbassyOverlayEngine.RegisterModule | src/embassy/engine.rs:161-181 | the loop updates the registry as `Register` does |
| Engine.EmbassyOverlayEngine.FindOffset | src/embassy/engine.rs:195-202 | the first entry with the identifier |
| Engine.EmbassyOverlayEngine.DiscoverModules | src/embassy/engine.rs:86-151 | discovery of either form reads storage and changes nothing |
| Engine.EmbassyOverlayEngine.ScanForContainers | src/embassy/engine.rs:117-147 | the sequential scan |
| Engine.EmbassyOverlayEngine.Mount | src/embassy/engine.rs:77-158 | discovery, then registration in order; a mount that fails in discovery leaves the registry unchanged |
| Engine.EmbassyOverlayEngine.Call | src/embassy/engine.rs:211-222 | unknown modules are refused without effect; a call fails exactly as its load does, and otherwise runs the loaded slot, entered in Thumb state whenever resident slots are aligned, which every load keeps |
| Engine.EmbassyOverlayEngine.Prefetch | src/embassy/engine.rs:228-235 | the load alone |
| Engine.EmbassyOverlayEngine.Evict | src/embassy/engine.rs:244-247 | eviction under the lock |
| Engine.EmbassyOverlayEngine.CallAndPrefetch | src/embassy/pipeline.rs:13-28 | an unknown or failed call prefetches nothing; an unknown or failed prefetch replaces the call's result |
| RegistryRuns.LookupFinds | src/embassy/engine.rs:195-202 | a lookup gives the offset of the first entry with the identifier, and nothing if and only if there is none |
| RegistryRuns.LookupAfterRegister | src/embassy/engine.rs:161-202 | registration changes the lookup of its own identifier alone, to the new offset |
| RegistryRuns.RegisterDense | src/embassy/engine.rs:161-181 | the prefix stays dense and distinct; registration fails if and only if the table is full and the identifier is new, and then changes nothing |
| RegistryRuns.RegistryIsLastWinsMap | src/embassy/engine.rs:77-202 | any run of registrations and mounts answers, and then looks up, as a bounded map in which the last registration wins |
| RegistryRuns.BatchFits | src/embassy/engine.rs:153-155 | a mount's registrations all succeed if and only if old and new identifiers together fit the table |
| Discovery.StepClearsContainer | src/embassy/engine.rs:130-131 | the u32 step clears the container if and only if header, code and rounding fit a u32 |
| Discovery.DiscoveryIsLongestChain | src/embassy/engine.rs:116-147 | on arbitrary bytes sequential discovery is the longest chain of valid headers from the base, cut only by the table |
| Discovery.ChainRises | src/embassy/engine.rs:127-132 | on arbitrary bytes a find is a padded container after the one before while that fits a u32; it lies past that one's header if and only if no sum overflows, or the size is one of the last three and the offset leaves room for a header; it is that one again if and only if the size is one of four |
| Discovery.WrappingStepStalls | src/embassy/engine.rs:130-132 | the scan finds its first header again until the table is full if and only if the code size is 2^32 - 35 to 2^32 - 32 |
| Discovery.SequentialDiscovery | src/embassy/engine.rs:116-147 | containers laid end to end from any base are found in order at their exact offsets, up to the size of the table |
| Discovery.SequentialMount | src/embassy/engine.rs:116-158 | and an empty table that can hold them then registers exactly those modules |
| MountAnswers.DiscoverAnswer | src/embassy/engine.rs:86-151 | for whatever storage answers: when discovery fails and with which error, each exactly, and otherwise which modules and offsets a directory gives |
| MountAnswers.DamagedDirectoryNotMounted | src/embassy/engine.rs:96-97 | a directory hit by a burst of at most 32 bits that left its magic is not mounted, and the registry stays as it was |
| MountAnswers.ErasedNotMounted | src/embassy/engine.rs:148-150 | erased flash is refused with `InvalidMagic`, and the registry stays as it was |
| Packer.PackOne | overlay-packer/src/main.rs:245-257 | header in front of payload, the length cut to u32 |
| Packer.PadPayload | overlay-packer/src/main.rs:276-279 | zeros up to a multiple of four, with the offset in step, wrap-around included |
| Packer.AutoPack | overlay-packer/src/main.rs:266-299 | for any overlays at all the layout loops write the image that `DirectoryDescribesIff` and `PackMountLoad` speak of, casts included; nothing is written for no overlays |
| Packer.DirectoryDescribesIff | overlay-packer/src/main.rs:266-293 | the directory counts its modules, places every container and gives every length if and only if there are fewer than 65536 modules, no payload of 4 GiB and no container that starts at 4 GiB or above |
| Packer.BodyGrows | overlay-packer/src/main.rs:275-291 | the i-th container lies where its entry says, whatever is packed after it |
| PackedImages.PackedFileIsFlash | overlay-packer/src/main.rs:293-299 | the file written is a flash that holds the image at 0, so the rows below apply to it |
| PackedImages.ContainersApart | overlay-packer/src/main.rs:275-291 | containers lie on multiples of four, in order, apart, after the directory and inside the image |
| PackedImages.EntryCrcIsPayloads | overlay-packer/src/main.rs:281-287 | the checksum in a directory entry is a function of the payload alone |
| PackedImages.DirectoryDiscovery | src/embassy/engine.rs:96-115 | a packed directory at any base is read whole, or as far as the table reaches |
| PackedImages.MountPacked | src/embassy/engine.rs:96-158 | mounting a packed image registers exactly its modules, with offsets counted from the image's start at any base |
| PackedImages.LoadContainer | src/overlay/mod.rs:173-229 | a container anywhere in flash loads into the selected slot as exactly its payload; no other RAM changes |
| PackedImages.PackMountLoad | overlay-packer/src/main.rs:266-299 | pack, mount at 0, load: exactly the original payload is in RAM and its module resident |
| PackedImages.MountedHigherDoesNotLoad | src/embassy/engine.rs:113-113 | an image at or above its own length in erased flash mounts, and every load at a registered offset then fails with `InvalidMagic` and changes nothing |
| PackedImages.EntryOutsidePayloadRuns | src/overlay/mod.rs:188-199 | a container loads and its call is let through whatever its entry offset; the branch target is in the payload if and only if the entry offset is below the code size |
| PackedImages.EntryOutsideSlot | src/overlay/mod.rs:188-199 | 64 bytes of code with entry offset 4096 load into a slot of 64 bytes, and the call starts 4096 bytes past its start |
| ImageBytes.PackedImageBytes | overlay-packer/src/main.rs:262-299 | the file in plain bytes: directory, each entry, and the container it points to, with all counts, lengths, offsets and checksums |
| ImageBytes.GapsAreZero | overlay-packer/src/main.rs:276-279 | between containers there are at most three bytes, all zero |
| Vfs.VfsReader.Mount | src/vfs/mod.rs:19-33 | a reader with the superblock storage holds, or why not |
| Vfs.VfsReader.FindEntry | src/vfs/mod.rs:51-72 | the search loop |
| Vfs.VfsReader.AssetLen | src/vfs/mod.rs:75-78 | the length in the entry |
| Vfs.VfsReader.StreamChunk | src/vfs/mod.rs:84-107 | a chunk into the front of the destination, the rest of which is untouched |
| Vfs.VfsReader.ReadAsset | src/vfs/mod.rs:110-122 | a whole asset, or too small a buffer |
| VfsAnswers.MountAnswer | src/vfs/mod.rs:19-33 | for whatever storage answers: when mounting fails and with which error, each exactly, and the superblock's fields |
| VfsAnswers.FindAnswer | src/vfs/mod.rs:51-72 | the search ends at the first entry with the identifier or that cannot be read, else reports it not found |
| VfsAnswers.StreamAnswer | src/vfs/mod.rs:84-107 | the address, length and rest of the destination of a chunk; a failed read is an error, a served one a count |
| VfsAnswers.ReadAnswer | src/vfs/mod.rs:110-122 | the same for a whole asset, and both lengths when the buffer is too short |
| VfsImages.PackVfs | overlay-packer/src/main.rs:62-112 | for any assets at all the layout loops write the image the lemmas below speak of, casts included |
| VfsImages.IndexDescribesIff | overlay-packer/src/main.rs:74-105 | the index counts, numbers, places and measures its assets if and only if there are fewer than 65536, none of 4 GiB, each starting less than 4 GiB into the data |
| VfsImages.PackedFileIsFlash | overlay-packer/src/main.rs:107-112 | the file written is a flash that holds the assets at 0, so the rows below apply to it |
| VfsImages.MountsPacked | src/vfs/mod.rs:19-33 | mounting a packed image at any base that fits gives the superblock that was written |
| VfsImages.FindsAsset | src/vfs/mod.rs:51-72 | identifiers 1 to n find their entries, all others are reported not found |
| VfsImages.ChunkRead | src/vfs/mod.rs:84-107 | a chunk is exactly the asset's bytes from the offset on, as many as are left and fit |
| VfsImages.ChunksRebuildAsset | src/vfs/mod.rs:84-107 | nonempty chunks of any sizes up to `Ok(0)` rebuild exactly the asset, and that point is always reached |
| VfsImages.WholeRead | src/vfs/mod.rs:110-122 | the same bytes in one read; `BufferTooSmall` if and only if the buffer is shorter |
| ImageBytes.PackedAssetBytes | overlay-packer/src/main.rs:62-112 | the file in plain bytes: superblock, each entry, numbered from one, and the asset it points to |
| ImageBytes.AssetGapsAreZero | overlay-packer/src/main.rs:84-89 | after an asset come at most three bytes, all zero |
| SectorCache.LruSectorCache.constructor | src/vfs/cache.rs:22-36 | an empty cache |
| SectorCache.LruSectorCache.Get | src/vfs/cache.rs:39-48 | lookup and use |
| SectorCache.LruSectorCache.Load | src/vfs/cache.rs:51-93 | hit, or load over the selected entry, whatever storage answers |
| SectorCache.LruSectorCache.ChooseVictim | src/vfs/cache.rs:68-81 | the selection loop |
| SectorCache.LruSectorCache.Clear | src/vfs/cache.rs:96-101 | every entry is empty, data and counter stay |
| SectorRuns.VictimIsLeastRecent | src/vfs/cache.rs:68-81 | an unused entry while there is one, else the least recently used sector |
| SectorRuns.ExactlyLru | src/vfs/cache.rs:39-101 | after any run the entries are the most recently used sectors in order of generation, no sector twice, with the bytes of flash |
| SectorRuns.ContentsAreMostRecent | src/vfs/cache.rs:39-101 | the cache holds exactly the min(SECTORS, distinct) most recently used distinct sectors since the last clear |
| SectorRuns.AnswersAreFlash | src/vfs/cache.rs:39-93 | after any run a load answers flash's bytes at base plus number times size, hit or miss, or fails exactly past the end of flash; a lookup answers the same bytes for exactly the most recently used sectors |
| SectorRuns.LoadsAreLruMisses | src/vfs/cache.rs:51-93 | storage reads on a trace of loads are the misses of LRU |
| SectorRuns.CacheIsCompetitive | src/vfs/cache.rs:51-93 | at most SECTORS times the misses of any policy with as many entries, on every trace |
| SectorRuns.CacheInclusion | src/vfs/cache.rs:51-93 | a larger cache holds all a smaller one does, and reads storage no more often |
| SectorRuns.HitKeepsOrderIff | src/vfs/cache.rs:39-48 | a hit keeps entries in order of use if and only if the counter does not wrap or no other entry is held |
| SectorRuns.WrappedCounterBreaksLru | src/vfs/cache.rs:68-81 | one such: with the counter at its maximum the entry just used is the one replaced |
| SectorRuns.TornReadAgreesIff | src/vfs/cache.rs:83-86 | after a read that fails every entry still has its sector's bytes if and only if the victim was empty or the read left its bytes alone |
| SectorRuns.TornReadBreaksAgreement | src/vfs/cache.rs:83-86 | one such: an entry whose bytes are not its sector's |
| LruTheory.StackInclusion | src/vfs/cache.rs:51-93 | LRU contents grow and misses fall with the number of entries |
| LruTheory.Competitive | src/vfs/cache.rs:51-93 | LRU with k entries misses at most k times as often as any policy with k entries starting empty |
| Block.BlockDeviceAdapter.constructor | src/block.rs:89-95 | nothing cached |
| Block.BlockDeviceAdapter.Read | src/block.rs:122-170 | reads are those of a flat array, with a u32 offset that never overflows; a read the device fails has filled exactly the bytes `Serve` counts from cached block and failures, correctly, and left the rest alone; the cached block stays a copy; with a cache left ahead of the device every byte is the device's or the cache's |
| Block.InBoundsIff | src/block.rs:122-130 | below 4 GiB the bounds test is the device's end; a larger device is cut by 4 GiB |
| Block.BlockDeviceAdapter.ReadOn | src/block.rs:131-167 | the loop alone |
| Block.NeverTornIff | src/block.rs:132-167 | no script of failures and no cached block leaves a read partly served if and only if it is inside one block, or of whole blocks from a block boundary |
| Block.OthersTear | src/block.rs:132-167 | every other read is torn when the second device operation fails, after the whole blocks or after the first block's part |
| Block.BlockDeviceAdapter.Refill | src/block.rs:148-155 | a refill that reads makes the cache a copy of the device's block; one that hits or fails leaves the device as seen through the cache as it was |
| Block.BlockDeviceAdapter.ReadWhole | src/block.rs:135-146 | the direct path |
| Block.BlockDeviceAdapter.ReadPart | src/block.rs:147-165 | the bounce-buffer path |
| Block.BlockDeviceAdapter.Write | src/block.rs:191-251 | writes are those of a flat array, with a u32 offset that never overflows; after a device error a prefix of the source ending on a chunk boundary is written, and cache and device differ at most in the block being rewritten; whatever failed before, every byte is the device's, the cache's or the source's |
| Block.BlockDeviceAdapter.WriteWhole | src/block.rs:205-223 | the direct path, which forgets the cached block if it overwrote it |
| Block.BlockDeviceAdapter.WritePart | src/block.rs:224-247 | read, modify, write of one block changes only the requested bytes |
| Block.BlockDeviceAdapter.Erase | src/block.rs:183-189 | a bounds test and nothing else |
| Block.BlockRewritten | src/block.rs:237-243 | writing back a cached block changed in one place is writing that place of the data as cached |
| BlockLoads.ReadThrough | src/block.rs:122-170 | the adapter is, to those who read through it, the storage of the rows below |
| BlockLoads.CleanIffOneOperation | src/block.rs:132-167 | reads of one place and length leave the buffer alone whenever they fail, on any device and with any failures, if and only if one device operation serves them |
| BlockLoads.BlockLoadKept | src/overlay/mod.rs:201-229 | a load whose payload read is of that kind keeps every invariant, whatever the adapter has cached and the device fails |
| BlockLoads.AdapterRunIsRun | src/overlay/mod.rs:100-230 | a run whose payload reads go through the adapter, each served by one device operation, is a run in the sense of `OverlayRuns` with the same requests and answers, whatever the device fails |
| BlockLoads.BlockLoadTorn | src/overlay/mod.rs:204-207 | a payload read served in part fails the load and leaves the victim claiming its module over the served bytes, with calls let through; it stays backed if and only if it was empty or the bytes are its own |
| BlockLoads.BlockLoadBackedIff | src/overlay/mod.rs:201-229 | all slots are backed after a load, whatever the device holds and fails, if and only if one device operation serves the payload read or the selected slot claims nothing or no code |
| BlockLoads.FirstBlockTears | src/block.rs:132-167 | on 512-byte blocks a container at 0 that leaves its first block tears when the second block fails: the old module is then called over 480 bytes of the new one |
| Partition.PartitionView.constructor | src/partition.rs:56-63 | base and size |
| Partition.PartitionView.ReadAt | src/partition.rs:98-112 | bounds, translation, errors; whatever failed before, bytes come from the partition's own range |
| Partition.PartitionView.WriteAt | src/partition.rs:137-151 | the same for writes; even a write the device fails stays inside the partition |
| Partition.PartitionView.EraseAt | src/partition.rs:123-135 | the same for erases |
| Partition.ReadAnswer | src/partition.rs:98-112 | a read up to the partition's end gives its bytes, one past it is refused; over both media |
| Partition.WriteAnswer | src/partition.rs:137-151 | a write up to the end puts exactly its bytes, or clears exactly their bits, and one past it changes nothing |
| Partition.EraseAnswer | src/partition.rs:123-135 | an erase is refused exactly outside the partition, and over NOR flash off the erase size; then exactly the range is 0xFF |
| Partition.ViewIsPrivate | src/partition.rs:98-152 | one operation through a view is the operation on a private array |
| Partition.ViewLeavesOthers | src/partition.rs:98-152 | and changes no byte of any other partition, over a block device or NOR flash |
| Partition.PerformNor | src/mock.rs:55-98 | simulated NOR flash does what the NOR medium of these lemmas says |
| Partition.NorPartitionView.Perform | src/partition.rs:98-152 | bounds and translation over simulated NOR flash |
| Partition.Isolation | src/embassy/shared_storage.rs:77-90 | under every interleaving each partition has the contents and outcomes of a private array |
| Partition.RunShared | src/block.rs:224-247 | the same for views over one block adapter, boundaries inside a block included |
| Partition.RunSharedNor | src/mock.rs:55-98 | the same for views over one simulated NOR flash |
| Partition.RunFaulty | src/block.rs:224-247 | over a device that fails at will, interleaved at will: every byte of a partition, on the device or as read, is its first one or one that a write of the partition itself carried there |
| Tasks.LocksKept | src/embassy/engine.rs:219-221 | every step keeps the locks: the manager lock is held across a whole operation, the bus lock across one storage operation |
| TaskRuns.LocalTracks | src/overlay/mod.rs:162-230 | each step between two awaits does the next piece of `EnsureResident` on the manager the operation started from |
| TaskRuns.EveryRunKeepsInv | src/embassy/engine.rs:211-247 | in every reachable state the manager is what its completed operations in order give, but for the cache and the lock holder's unfinished work |
| TaskHistory.OperationsAreAtomic | src/embassy/engine.rs:211-247 | under every interleaving operations take effect one at a time and keep every invariant of sequential runs; they are exactly those of the jobs each task was served, in order, at the registry's offsets, and were answered what flash held |
| TaskHistory.EveryFetchIsVerified | src/embassy/engine.rs:211-222 | under every interleaving, with flash rewritten at will between the two reads: the slot a call fetches from starts with bytes flash held, at one moment, behind the module's registered offset, and flash held at that offset, at an earlier moment, a valid header of the module with their checksum; fetches below its code size return those bytes, and the first is at its entry offset |
| TaskFlash.StepWrites | src/embassy/shared_storage.rs:87-90 | no step changes flash but the one that completes a write, and that as the write says |
| TaskFlash.FlashIsLastWritten | src/embassy/shared_storage.rs:77-90 | in every reachable state flash is what the last completed write left, or what it was at first |
| TaskFlash.CallAcrossWrite | src/overlay/mod.rs:173-207 | for any module, a run in which another task writes flash between the two reads of its load, flash holding its header only before and its code only after, and which goes on to the call's first fetch |
| TaskFlash.ReadsCanFail | src/overlay/mod.rs:173-207 | a header read, and a payload read not yet begun, may always be refused; the load then fails and nothing changes |
| TaskFlash.BodiesAreFree | src/embassy/engine.rs:219-221 | a running body may fetch any byte of its slot after the one at its entry offset, or return, at any time |
| TaskFlash.CacheIsFree | src/overlay/sync.rs:38-68 | the instruction cache may take in any byte of any slot at any time and keeps it |
| EndToEnd.EveryFetchIsPacked | src/embassy/engine.rs:77-222 | with a packed image in flash that was mounted at 0 and that no task's write touches, under every interleaving: a call fetches from a slot that starts with its own module's packed code, a fetch below the code's length returns that code's byte, and the first is at the module's entry |
| TaskSafety.NothingWrittenWhileRunning | src/embassy/engine.rs:219-221 | no step of any task writes a slot or changes residency while a call runs |
| TaskSafety.CallCheckNeverFails | src/overlay/mod.rs:275-278 | the residency test after a load always passes |
| TaskSafety.MutualExclusion | src/embassy/shared_storage.rs:67-90 | no two tasks inside the manager, no two inside storage |
| TaskSafety.FlashStableForHolder | src/embassy/shared_storage.rs:67-90 | flash does not change during another task's storage operation |
| TaskSafety.CompletedReadIsFlash | src/overlay/mod.rs:201-207 | a completed payload read has put exactly flash's bytes into the slot |
| TaskSafety.HookAfterCheckBeforeResidency | src/overlay/mod.rs:209-227 | the hook runs only after the checksum matched and empties the cache; a slot becomes resident only after the hook |
| TaskSafety.HooksCountLoads | src/overlay/sync.rs:38-68 | hook calls are exactly the loads that succeeded, in every reachable state |
| TaskLiveness.EveryRunCanGoOn | src/embassy/shared_storage.rs:67-90 | every reachable state with an unfinished task has an enabled step |
| TaskLiveness.TurnDecreases | src/embassy/engine.rs:211-247 | every step of a task decreases a measure |
| TaskLiveness.SchedulesEnd | src/embassy/engine.rs:211-247 | no schedule has more task steps than the jobs cost |
| TaskLiveness.StuckMeansFinished | README.md:475-475 | a schedule that can go no further has finished every task |
| TaskLiveness.EveryRunCanFinish | README.md:475-475 | from every reachable state all tasks can be brought to their end |

## Left out

- Partition.Isolation: gives exact contents and outcomes, which a device that fails part-way does not have; what holds under faults is `Partition.RunFaulty`.
- `src/bundle.rs`: `new` slices 60 bytes of a 52-byte serialisation and panics on every input, so there is no round trip to state.
- `call_raw`'s transmute, its host branch, the C ABI and real instructions: a call is the sequence of its instruction fetches, the first at the entry offset, and a fetch reads the instruction cache or else RAM. What is fetched outside the slot is not modelled: a call that starts there fetches nothing here.
- Slot RAM is an array beside the slot record, not a raw address; that `exec_addr` aliases the same memory is taken for granted, and `set_exec_addr` after construction is not modelled.
- `SharedStorageBus` and the manager's mutex as objects: acquiring is a step enabled when the lock is free, and fairness and wakers are not modelled. A bus operation is one lock, one operation, one release.
- `pin_slot` and `unpin_slot` while tasks run: they are reached only through `inner`; slots may be pinned beforehand.
- Which bytes a partition writer may change, in the step system: writers there may leave flash as anything at all.
- `register_modules`, `execute`, `is_resident`, capacities and other accessors: they add nothing to the operations they wrap.
- Real barriers, `CoreIcacheSync`, the STM32 ICACHE and MSP/VTOR code: only the hook's contract is kept.
- Macros, static cells, `Display` and defmt impls, `src/build.rs`, Cargo and linker files, the bootloader and the demos.
- Command-line parsing, `readelf` and `objcopy` calls, file I/O, `pack_overlay`, and `tools/flash_dual.py`, whose layout repeats `auto_pack`.
- `fnv1a_hash`: packed modules come with their identifiers; distinct names are not proved to have distinct hashes.
- The blocking duplicates in `src/partition.rs` and `src/mock.rs`.
