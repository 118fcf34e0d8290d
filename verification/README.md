# Atmosphère: decoders, device page tables, emulated eMMC and hand-offs

A Dafny model of the parts of Atmosphère in which several steps have to agree with each other:

- **LZ4** (`Lz4Block`, `Lz4Format`, `Lz4InPlace`, `Lz4Overlap`, `Lz4Uncompressor`): the loader
  stub's block decoder, the block format as an independent definition, and the margin that lets a
  block be decoded over itself.
- **BLZ** (`Blz`, `BlzFormat`, `BlzDecoding`): the backward decoder of the NXO loader, its format,
  and the inputs that are not in it.
- **Device page tables** (`SmmuEntry`, `SmmuCoherence`, `DeviceTables`, `Maintenance`,
  `DevicePageTable`, `DeviceTranslation`, `DeviceCoherence`): what `MapImpl` builds and issues, the
  CPU data cache, page-table cache and TLB around it, when they stay coherent, and what a device
  sees afterwards in every interleaving.
- **Emulated eMMC** (`SdStorage`, `PartFiles`, `Emummc`, `Sdma`, `CardResponse`): the SD card with
  its retries and speed downgrades, split part files, three partitions on two backends, DMA across
  buffer boundaries, and card responses.
- **Secure monitor** (`MapWindow`, `FatalHandoff`): one-page windows under a lock
  that outlives the call, and the fatal-error interrupt handed from core to core.
- **Tools** (`SegmentBuilder`, `SegmentNames`, `Package3`, `Package3Image`, `CodePatch`): flattening of
  segments and sections, every byte of package3, and the instructions patched into FS.

`Bytes`, `Words`, `Arithmetic`, `BitMask`, `Options` and `Flattening` hold what several of them use.

Code that updates memory step by step is a method or a class, proved against functions on values;
protocols between cores or with the hardware are state machines whose every shared access is a
step. A failed `AMS_ABORT_UNLESS`, a failed Python assertion and an exception are results. Device
failures are chosen freely at every attempt.

Where the code does not have a property that its comments or its form suggest, the model keeps the
code and states exactly when the property holds:

- One shared second-level table serves a range exactly when at most one of its 4 MiB sections
  cannot be a large page (`FlatExactlyWhenOneTable`), and the caches are coherent at the barriers
  of the mapping exactly then too (`CoherentExactlyWhenOneTable`); two pages on either side of a
  section boundary fail (`TwoPagesIncoherent`).
- The last core's wait is described as waiting until the others are off; it waits for their marks,
  and the two agree only on a single core (`QuietExactlyWhenAlone`).
- An uncompressed prefix in front of a BLZ image is not kept: the decoder runs on into it, raises or
  leaves one of the image's last two bytes there (`PrefixIsDecodedInto`), and keeps a prefix exactly
  when the image alone makes it write the same bytes (`PrefixKeptExactly`); in front of an image of
  19 bytes a single byte 7 is lost (`SmallPrefixLost`) and a zero is kept (`SmallPrefixKept`).
- On a raw emulated eMMC nothing keeps an access to a boot partition inside it: writes leave the
  other partitions alone exactly when they do not run past its 4 MiB or, where the 32-bit sum wraps,
  end in front of the others (`RawIsolation`), and what runs past lands in the next partition
  (`WriteSpills`).
- The bound check of split part files sums in 32 bits: an access that passes it starts in a file that
  is not open exactly when it starts behind all of them and is empty or wraps (`LeavesOpenParts`);
  one sector at the last 32-bit number does (`WrappedAccessLeaves`).
- A window unmapped by a core that has not mapped it is left alone exactly when nothing is mapped
  (`StrayUnmap`).
- Branches, ADRP immediates and ADRP/ADD pairs reach their target exactly within 128 MiB, within
  4 GiB, and within the same 4 GiB of address space (`BranchLands`, `AdrpRoundTrip`,
  `WriteAdrpAdd`).
- package3's constant offsets are right exactly when the program holds both overlays and the KIPs
  fit in 3 MiB (`PlannedExactlyWhenFits`); the script does not look.

## Model

| member | source | states |
|---|---|---|
| Lz4Uncompressor.Uncompressor.constructor | exosphere/loader_stub/source/secmon_loader_uncompress.cpp:32-34 | both offsets start at zero over the given source and destination |
| Lz4Uncompressor.Uncompressor.ReadByte | exosphere/loader_stub/source/secmon_loader_uncompress.cpp:67-69 | returns the byte at the source offset as memory is now, and advances by one |
| Lz4Uncompressor.Uncompressor.GetCopySize | exosphere/loader_stub/source/secmon_loader_uncompress.cpp:75-87 | the nibble plus the run of 0xFF bytes and the byte that ends it; fails exactly when the block ends first |
| Lz4Uncompressor.Uncompressor.Copy | exosphere/loader_stub/source/secmon_loader_uncompress.cpp:89-93 | apart, splices the literals into the destination; in one memory, copies byte by byte upwards, whatever the overlap |
| Lz4Uncompressor.Uncompressor.CopyBack | exosphere/loader_stub/source/secmon_loader_uncompress.cpp:57-63 | the byte-by-byte copy from `offset` back, overlapping itself where the match is longer than its offset |
| Lz4Uncompressor.Uncompressor.Uncompress | exosphere/loader_stub/source/secmon_loader_uncompress.cpp:36-65 | for every byte string, with source and destination apart or in one memory: ends, and finishes, aborts or leaves its bounds exactly as the loop on values does, with the same memory |
| Lz4Uncompressor.UncompressProgram | exosphere/loader_stub/source/secmon_loader_main.cpp:24-25 | decoding an encoded block leaves exactly its meaning in the region and the rest of the region as it was |
| Lz4Uncompressor.UncompressBootCode | exosphere/loader_stub/source/secmon_loader_main.cpp:27-32 | a block moved to the end of its own output region and decoded there yields its meaning, given a margin of one byte per 255 literals and two more, which is at most 1/255 of its size and two bytes |
| Lz4Block.Execute | exosphere/loader_stub/source/secmon_loader_uncompress.cpp:36-65 | the region keeps its length and the output never passes its end |
| Lz4Format.ExtensionRoundTrip | exosphere/loader_stub/source/secmon_loader_uncompress.cpp:78-84 | reading the extension bytes of any length gives the length back |
| Lz4Format.ParseEncoded | exosphere/loader_stub/source/secmon_loader_uncompress.cpp:36-65 | reading the encoding of a block gives the block back |
| Lz4Format.EncodeParsed | exosphere/loader_stub/source/secmon_loader_uncompress.cpp:36-65 | bytes read without error are the encoding of what was read |
| Lz4Format.CopyMatchIsPeriodic | exosphere/loader_stub/source/secmon_loader_uncompress.cpp:57-63 | a match copy repeats the last `offset` bytes periodically, whatever the overlap |
| Lz4Format.CopyMatchFrame | exosphere/loader_stub/source/secmon_loader_uncompress.cpp:57-63 | a match copy changes only the bytes it produces |
| Lz4Format.MatchMeaning | exosphere/loader_stub/source/secmon_loader_uncompress.cpp:57-63 | output, match, copy: the output followed by its periodic continuation |
| Lz4Format.ExecutesWhenFits | exosphere/loader_stub/source/secmon_loader_uncompress.cpp:36-65 | a block runs to its end if and only if it is complete, its matches stay in reach and its output fits; then its size is the sum of its parts |
| Lz4Format.ExecuteMeaning | exosphere/loader_stub/source/secmon_loader_uncompress.cpp:36-65 | the output is the block's meaning on top of what was there |
| Lz4Format.ExecuteFrame | exosphere/loader_stub/source/secmon_loader_uncompress.cpp:36-65 | nothing outside the output is written |
| Lz4Format.RoundTrip | exosphere/loader_stub/source/secmon_loader_uncompress.cpp:98-101 | decoding the encoding of any block in reach that fits gives its meaning, the rest of the region unchanged |
| Lz4Format.AcceptsExactlyEncodings | exosphere/loader_stub/source/secmon_loader_uncompress.cpp:98-101 | the decoder completes if and only if its input encodes some block in reach that fits |
| Lz4InPlace.Expansion | exosphere/loader_stub/source/secmon_loader_main.cpp:27-32 | an encoded block exceeds its output by at most one byte in 255 literals and two more |
| Lz4InPlace.MarginSuffices | exosphere/loader_stub/source/secmon_loader_main.cpp:27-32 | as many bytes of margin keep the writes of every step away from unread source |
| Lz4Overlap.ApartIsDecode | exosphere/loader_stub/source/secmon_loader_uncompress.cpp:36-65 | with source and destination apart the loop is the value-level decoder |
| Lz4Overlap.RoomAfterEntry | exosphere/loader_stub/source/secmon_loader_uncompress.cpp:54-63 | in a block with room, the output after every match ends before the next unread source byte |
| Lz4Overlap.RoomedIsDecode | exosphere/loader_stub/source/secmon_loader_main.cpp:27-32 | in one memory with room no unread byte is overwritten, and the loop is the value-level decoder too |
| Lz4Overlap.MarginIsTight | exosphere/loader_stub/source/secmon_loader_main.cpp:27-32 | for every k, a block with 255k + 16 literals and one byte less of margin, whose decoding over itself aborts although it decodes elsewhere |
| Blz.CopyDown | utilities/nxo64.py:67-72 | copies downwards from `offset` above each position, writing every position once in descending order |
| Blz.Item | utilities/nxo64.py:56-78 | one flag: a literal, a match, or the error the value-level decoder gives |
| Blz.DecompressList | utilities/nxo64.py:40-83 | for every input equals the value-level decoder, errors included, and a success has written every output position exactly once from the end down |
| BlzFormat.RepeatIsPeriodic | utilities/nxo64.py:67-72 | an overlapping match repeats the bytes above it periodically |
| BlzFormat.NextControl | utilities/nxo64.py:57-80 | the top bit of the shifted control byte is the next item's flag |
| BlzDecoding.Through | utilities/nxo64.py:53-82 | reading the stream of any list of items from any point, negative indices included, produces their meaning and goes on behind it |
| BlzDecoding.Read | utilities/nxo64.py:53-82 | conversely, what is read without error is, byte by byte and flag by flag, the stream of items in reach whose lengths fill the output, and produces their meaning |
| BlzDecoding.DecodedMeans | utilities/nxo64.py:40-83 | for any bytes at all that decode, the items and spare flags whose stream stands where the footer says, and whose meaning is the result |
| BlzDecoding.DecodesExactly | utilities/nxo64.py:40-83 | the decoder succeeds with given data if and only if the image holds the stream of items in reach that mean it, of the length its footer announces |
| BlzDecoding.RoundTrip | utilities/nxo64.py:40-83 | decoding the image of any list of items in reach gives its meaning, whatever fills the spare flags and the gap before the footer |
| BlzDecoding.PrefixIsDecodedInto | utilities/nxo64.py:40-83 | with a prefix in front the decoder raises, or keeps the image's meaning at the end and puts one of the image's last two bytes directly below it |
| BlzDecoding.PrefixIsLost | utilities/nxo64.py:40-83 | a prefix that ends in neither of those bytes is always lost |
| BlzDecoding.PrefixIsIgnored | utilities/nxo64.py:40-83 | prefixes of one length all give the same result |
| BlzDecoding.PrefixKeptExactly | utilities/nxo64.py:40-83 | a prefix is kept if and only if the decoder writes the same bytes when others lie in its place |
| BlzDecoding.SmallPrefixLost | utilities/nxo64.py:40-83 | the byte 7 in front of an image of four literals and a match is lost |
| BlzDecoding.ZeroIsKept | utilities/nxo64.py:40-83 | a zero byte in front of an image with clear spare flags that grows by less than 64 KiB is kept, read from the end of the image through negative indices |
| BlzDecoding.SmallPrefixKept | utilities/nxo64.py:40-83 | so a zero in front of that image is kept |
| BlzDecoding.SmallDecodes | utilities/nxo64.py:40-83 | 19 given bytes decode to 21 given bytes |
| SmmuEntry.EntryRoundTrip | exosphere/mariko_fatal/source/fatal_device_page_table.cpp:93-122 | bits 31 to 28 of an encoded entry are its four flags and the rest its page; every field decodes to what was encoded |
| DeviceTables.FlatExactlyWhenOneTable | exosphere/mariko_fatal/source/fatal_device_page_table.cpp:203-297 | walking the built tables gives the requested flat mapping at every address, readable, writable and non-secure along the whole path, if and only if at most one section needs the table |
| DeviceTables.FirstSectionLost | exosphere/mariko_fatal/source/fatal_device_page_table.cpp:240-260 | otherwise the first page of the range no longer translates to its physical address |
| DeviceTables.WalkIsTranslate | exosphere/mariko_fatal/source/fatal_device_page_table.cpp:215-219 | the hardware's walk over memory words is the walk over the two arrays |
| Maintenance.EntryReaches | exosphere/mariko_fatal/source/fatal_device_page_table.cpp:229-236 | write, clean, flush, flush, barrier of an entry is disciplined and leaves nothing out of date |
| Maintenance.LinesFlushed | exosphere/mariko_fatal/source/fatal_device_page_table.cpp:282-285 | flushing one 16-byte line in four entries reaches every changed entry up to there |
| Maintenance.TableReaches | exosphere/mariko_fatal/source/fatal_device_page_table.cpp:243-290 | making and filling the first table is disciplined: cleared and cleaned before it is linked, published before the barrier |
| Maintenance.TableStores | exosphere/mariko_fatal/source/fatal_device_page_table.cpp:243-290 | it stores the link and exactly the pages |
| DevicePageTable.StepMaps | exosphere/mariko_fatal/source/fatal_device_page_table.cpp:214-295 | an iteration extends the mapped range, by a large page or to the end of the section or request |
| DevicePageTable.IssuedBuilds | exosphere/mariko_fatal/source/fatal_device_page_table.cpp:214-295 | what the whole loop issues stores the tables of the range, and is disciplined where one table suffices |
| DevicePageTable.SetDirectoryEntry | exosphere/mariko_fatal/source/fatal_device_page_table.cpp:229-236 | one entry changes, and exactly write, clean, PTC flush, TLB flush and barrier are issued for it |
| DevicePageTable.ClearTable | exosphere/mariko_fatal/source/fatal_device_page_table.cpp:248-250 | the table is zero, and its zeroing and cleaning are issued |
| DevicePageTable.FlushLines | exosphere/mariko_fatal/source/fatal_device_page_table.cpp:282-285 | one flush is issued for each line of four entries that the changed entries lie in |
| DevicePageTable.MapPages | exosphere/mariko_fatal/source/fatal_device_page_table.cpp:268-290 | exactly the given entries change, to consecutive pages, with the events that publish them |
| DevicePageTable.MapTable | exosphere/mariko_fatal/source/fatal_device_page_table.cpp:243-295 | a zero table filled with the section's pages, linked before it is filled, with the events in that order |
| DevicePageTable.MapImpl | exosphere/mariko_fatal/source/fatal_device_page_table.cpp:203-297 | aborts if and only if a table it needs is missing; otherwise issues exactly the events of the range, the tables are what those store, and they are built for the whole range |
| SmmuCoherence.Keep | exosphere/mariko_fatal/source/fatal_device_page_table.cpp:153-186 | every step of the CPU, of write-back, of fetches, fills and evictions keeps the coherence invariant |
| SmmuCoherence.RunInv | exosphere/mariko_fatal/source/fatal_device_page_table.cpp:153-186 | at each barrier of a disciplined program, in every interleaving from an invariant state, caches and memory agree |
| SmmuCoherence.RunEnds | exosphere/mariko_fatal/source/fatal_device_page_table.cpp:153-186 | the invariant holds at the end of every run with what the program alone determines |
| SmmuCoherence.CoherentAtBarriers | exosphere/mariko_fatal/source/fatal_device_page_table.cpp:301-322 | from empty caches and a cleared directory, no cached word or translation disagrees with memory at any barrier |
| DeviceTranslation.RunHolds | exosphere/mariko_fatal/source/fatal_device_page_table.cpp:203-297 | in every interleaving the CPU's memory ends up as the program's stores say |
| DeviceTranslation.DeviceSeesFlat | exosphere/mariko_fatal/source/fatal_device_page_table.cpp:301-322 | after the issued events, in every interleaving, each cached translation and each walk still to come is the requested flat mapping with all its rights |
| DeviceCoherence.CoherentExactlyWhenOneTable | exosphere/mariko_fatal/source/fatal_device_page_table.cpp:203-297 | from empty caches over a cleared directory, every run of the issued events is coherent at all its barriers if and only if one table suffices |
| DeviceCoherence.Clobbers | exosphere/mariko_fatal/source/fatal_device_page_table.cpp:248-259 | the failing run: the last entry of the first section is cached, the table is cleared for the second, and the barrier that links it there finds cache and memory in disagreement |
| DeviceCoherence.TwoPagesIncoherent | exosphere/mariko_fatal/source/fatal_device_page_table.cpp:203-297 | two pages around a section boundary are such a request |
| DeviceCoherence.InitializeDevicePageTable | exosphere/mariko_fatal/source/fatal_device_page_table.cpp:301-322 | clearing the directory and mapping, end to end: coherent at all barriers in all runs if and only if one table suffices, and then the device sees the mapping asked for |
| SdStorage.Storage.constructor | emummc/source/emmc/nx_sd.c:23-26 | a card starts at the fastest mode, not initialised |
| SdStorage.Storage.InitSd | emummc/source/emmc/nx_sd.c:67 | initialisation may fail; the flag says which, and failures are counted |
| SdStorage.Storage.InitRetry | emummc/source/emmc/nx_sd.c:33-68 | one step slower after a power cycle, back to the maximum out of range; succeeds if and only if a mode is left and the initialisation does not fail |
| SdStorage.Storage.Initialize | emummc/source/emmc/nx_sd.c:70-91 | ends; every failed initialisation costs one mode, and it succeeds if and only if they are fewer than the modes |
| SdStorage.Storage.Attempt | emummc/source/emmc/sdmmc.c:258-282 | success moves exactly the sectors; failure leaves arbitrary contents in the range and nowhere else |
| SdStorage.Storage.Reinit | emummc/source/emmc/sdmmc.c:326-331 | the first time from the current speed, exactly one step slower every time after, with the same exact outcomes |
| SdStorage.Storage.Tries | emummc/source/emmc/sdmmc.c:309-322 | fails only after exactly as many failed attempts as there are retries |
| SdStorage.Storage.Chunk | emummc/source/emmc/sdmmc.c:309-350 | only an SD card is initialised again, and the transfer then starts over; giving up takes five failed attempts, eight after a first initialisation that worked, and three for every further step down |
| SdStorage.Storage.ReadWrite | emummc/source/emmc/sdmmc.c:296-359 | ends, with a speed that never rises or wraps; success moves exactly the range, whatever failed on the way; nothing outside it changes; with fewer than five failures on a range on the card it succeeds and keeps the speed; on an SD card five failures do not end it if some mode still initialises, nor do 4 + 3m with m modes left if no initialisation fails; other cards are never initialised again |
| PartFiles.StartIsProduct | emummc/source/emuMMC/emummc.c:348-349 | part `i` starts at `i` times the part size |
| PartFiles.FlattenUpdate | emummc/source/emuMMC/emummc.c:354-376 | replacing one part replaces exactly its stretch of the whole |
| PartFiles.PartAccess | emummc/source/emuMMC/emummc.c:358-370 | an access to a part is the access to the same sectors of the whole |
| Emummc.Mmc.Open | emummc/source/emuMMC/emummc.c:203-227 | the user partition is the concatenation of the part files found, at most 32, and a single file counts as no split |
| Emummc.Mmc.OnCard | emummc/source/emuMMC/emummc.c:322-330 | a raw device is the card from its offset on: two boot partitions of 0x2000 sectors, then the user partition |
| Emummc.Mmc.AccessPart | emummc/source/emuMMC/emummc.c:358-370 | moves exactly the sectors of the whole that the part's sectors are |
| Emummc.Mmc.CrossParts | emummc/source/emuMMC/emummc.c:351-379 | an access over any number of part files equals the access to their concatenation, and fails only if a file access inside its file fails |
| Emummc.Mmc.SplitAccess | emummc/source/emuMMC/emummc.c:348-379 | the same with the choice between one part and several, made on a 32-bit sum |
| Emummc.Mmc.GppAccess | emummc/source/emuMMC/emummc.c:342-383 | the same with the bound check, split or not; a wrapped sum can only fail or move exactly the range |
| Emummc.Mmc.RawAccess | emummc/source/emuMMC/emummc.c:322-336 | on the card: exactly the sectors from offset, partition and sector on, summed in 32 bits, wherever they lie; aborts if and only if no partition is selected; no failure in range without failures of the card |
| Emummc.Mmc.BootAccess | emummc/source/emuMMC/emummc.c:384-400 | one boot file: exactly its sectors, and no failure in range without a failure of the file |
| Emummc.Mmc.FileAccess | emummc/source/emuMMC/emummc.c:338-400 | on the file backend likewise |
| Emummc.Mmc.ReadWriteInner | emummc/source/emuMMC/emummc.c:320-401 | on either backend: exactly the range in the space accesses are made in, nothing else, sums past 32 bits included, and no failure of a fitting access without a failure of the medium |
| Emummc.Mmc.PerformRead | emummc/source/emuMMC/emummc.c:320-401 | a read returns the sectors, and changes nothing even when it fails |
| Emummc.Mmc.PerformWrite | emummc/source/emuMMC/emummc.c:320-401 | a successful write replaces exactly its sectors; inside its partition it leaves the others alone even when it fails; over the end of a raw Boot0 its rest is in Boot1 |
| Emummc.Mmc.Perform | emummc/source/emuMMC/emummc.c:305-401 | any host operation is a step of the device; partitions it spares are unchanged, success or not |
| Emummc.Mmc.Run | emummc/source/emuMMC/emummc.c:305-401 | whole runs: any sequence of selections, reads and writes gives the outputs and contents of the device; partitions no write reaches are unchanged in failed runs too; it completes unless the medium fails or an operation does not fit |
| Emummc.PartitionsAreSeparate | emummc/source/emuMMC/emummc.c:305-318 | over whole runs on either kind of device a partition changes only by writes made while it is selected, if boot writes stay inside |
| Emummc.RawIsolation | emummc/source/emuMMC/emummc.c:324-335 | on a card, the writes to a range leave all other partitions alone, whatever the data, if and only if the range does not pass the end of a boot partition or, where its sum wraps, ends in front of the other partitions |
| Emummc.WriteSpills | emummc/source/emuMMC/emummc.c:324-335 | a write over the end of a boot partition puts the rest of its data at the start of the next |
| Emummc.BackendsAgree | emummc/source/emuMMC/emummc.c:320-401 | runs whose boot accesses stay inside give the same outputs and the same partitions on the raw and the file backend |
| Emummc.PieceFits | emummc/source/emuMMC/emummc.c:355-375 | every piece of an access within the total falls inside a part that is open |
| Emummc.LeavesOpenParts | emummc/source/emuMMC/emummc.c:345-349 | for all 32-bit sectors and counts that pass the bound check, the part index leaves the open parts if and only if the sector lies behind them all and the access is empty or its sum wraps |
| Emummc.WrappedAccessLeaves | emummc/source/emuMMC/emummc.c:345-349 | one sector at 0xFFFFFFFF passes the check on two files and indexes far behind them |
| Sdma.Controller.ConfigDma | emummc/source/emmc/sdmmc_driver.c:881-914 | refuses exactly empty requests and misaligned addresses; otherwise programs the address, the next boundary in 64 bits and the capped count |
| Sdma.Controller.UpdateDma | emummc/source/emmc/sdmmc_driver.c:928-966 | the bursts tile the buffer without gap or overlap, every pause is at a 512 KiB boundary, and only a failed poll ends them early |
| CardResponse.ByteIsFree | emummc/source/emmc/sdmmc_driver.c:447-450 | the byte or-ed into a shifted word has no bit in common with it |
| CardResponse.CachedValue | emummc/source/emmc/sdmmc_driver.c:425-451 | the four words as one number are the registers' number shifted by a byte |
| CardResponse.CacheResponse | emummc/source/emmc/sdmmc_driver.c:425-451 | the loop that patches each word after the next is read stores that number |
| CardResponse.CrossingIsSum | emummc/source/emmc/sdmmc.c:41-43 | nor have the two halves of a field that crosses words |
| CardResponse.UnstuffIsField | emummc/source/emmc/sdmmc.c:36-45 | every field of 1 to 32 bits inside the response is extracted exactly, over a word boundary or not |
| MapWindow.StepInv | exosphere/program/source/secmon_map.cpp:195-308 | every step of any core keeps the window invariant when cores unmap only what they mapped |
| MapWindow.RunInv | exosphere/program/source/secmon_map.cpp:195-308 | it holds in every state of every such run |
| MapWindow.HoldingProtects | exosphere/program/source/secmon_map.cpp:215-228 | from map to unmap the lock is held by nobody else, the address is a page of the region and recorded, and every core's access through the window reaches it |
| MapWindow.HoldingLasts | exosphere/program/source/secmon_map.cpp:225-228 | nothing other cores do ends that: all of it still holds, for the same page, when the holder acts again |
| MapWindow.RecordedExactlyWhileMapped | exosphere/program/source/secmon_map.cpp:215-252 | the recorded address, the page-table entry and the lock are set exactly while some core is at the points between |
| MapWindow.RejectedMapChangesNothing | exosphere/program/source/secmon_map.cpp:200-213 | a map of anything else is refused, leaves the window empty and gives the lock back |
| MapWindow.AdmitsExactlyPages | exosphere/program/source/secmon_map.cpp:201-213 | the checks admit exactly the 64 pages of IRAM but numbers 0x34 to 0x37, or the pages of the memory there is |
| MapWindow.ChecksExactlyPages | exosphere/program/source/secmon_map.cpp:201-213 | in every run the check goes on to recording for those pages and to rejecting for all other addresses |
| MapWindow.MapSucceeds | exosphere/program/source/secmon_map.cpp:195-228 | a whole map on an empty free window ends with the page held, recorded and entered if it is one of those, and with the state as before if not |
| MapWindow.UnmapUndoesMap | exosphere/program/source/secmon_map.cpp:195-253 | map and unmap of such a page restore the state |
| MapWindow.StrayUnmap | exosphere/program/source/secmon_map.cpp:231-253 | an unmap by a core that mapped nothing is without effect if and only if nothing is mapped; otherwise it frees the holder's lock and page |
| FatalHandoff.StepInv | exosphere/program/source/secmon_mariko_fatal_error.cpp:31-59 | every step of any core keeps: one token, marks exactly the cores that stored, one hand-off per mark |
| FatalHandoff.RunInv | exosphere/program/source/secmon_mariko_fatal_error.cpp:31-59 | it holds in every state of every run |
| FatalHandoff.MaskWrites | exosphere/program/source/secmon_mariko_fatal_error.cpp:38-41 | only the token's holder writes the mask, once, and adds exactly its bit, although the update is not atomic |
| FatalHandoff.MarksInOrder | exosphere/program/source/secmon_mariko_fatal_error.cpp:44-49 | in every run the cores mark themselves in one order: the first to be interrupted, then the others from the lowest up, and the interrupt is always on its way to the next of them |
| FatalHandoff.LeavesAfterAll | exosphere/program/source/secmon_mariko_fatal_error.cpp:54-58 | the last core leaves only when every core has marked itself exactly once, after one hand-off less than there are cores |
| FatalHandoff.StepProgress | exosphere/program/source/secmon_mariko_fatal_error.cpp:31-59 | a step either spins or brings the end nearer |
| FatalHandoff.NeverStuck | exosphere/program/source/secmon_mariko_fatal_error.cpp:31-59 | until all cores are done some core can take a step that is not a spin |
| FatalHandoff.QuietExactlyWhenAlone | exosphere/program/source/secmon_mariko_fatal_error.cpp:51-59 | the other cores are off whenever the last one leaves if and only if there is one core |
| SegmentBuilder.SortKeeps | utilities/nxo64.py:229-233 | sorting orders by key, permutes the elements and keeps every pairwise relation |
| SegmentBuilder.SegmentTiles | utilities/nxo64.py:234-246 | the parts of a segment follow each other without gap from its start to its end |
| SegmentBuilder.ArrangedWellFormed | utilities/nxo64.py:229-233 | sorting in place leaves a list the builder could hold |
| SegmentBuilder.FlattenTiles | utilities/nxo64.py:228-246 | non-empty, disjoint parts in order that cover exactly the segments' addresses |
| SegmentBuilder.FlattenBelongs | utilities/nxo64.py:236-245 | every part lies inside one segment and has its kind |
| SegmentBuilder.FlattenKeepsSections | utilities/nxo64.py:239-240 | every section is a part under its segment's kind, exactly once |
| SegmentNames.DecimalIsNumeral | utilities/nxo64.py:198-201 | the digits of a number, without leading zero, read back as the number |
| SegmentNames.FlattenNamesGaps | utilities/nxo64.py:228-246 | in the flattened list the first part of a segment that is no section is named as the segment, and the k-th after it has a dot and the numeral of k behind that name |
| SegmentNames.FlattenNamesDiffer | utilities/nxo64.py:198-201 | so no two of them have one name |
| SegmentNames.FlattenSectionOrGap | utilities/nxo64.py:228-246 | every part is a section of a segment or one of those |
| SegmentBuilder.Builder.constructor | utilities/nxo64.py:205-206 | the builder starts empty and well formed |
| SegmentBuilder.Builder.AddSegment | utilities/nxo64.py:208-212 | accepted if and only if it overlaps no segment; well-formedness is kept |
| SegmentBuilder.Builder.AddTo | utilities/nxo64.py:183-186 | accepted if and only if it overlaps no section of the segment |
| SegmentBuilder.Builder.AddSection | utilities/nxo64.py:214-226 | ignored if and only if given size 0; stored if and only if some segment contains it and has no overlapping section, and then in that segment |
| SegmentBuilder.Builder.Flatten | utilities/nxo64.py:228-246 | sorts in place and returns the parts of the arranged list, keeping well-formedness |
| SegmentBuilder.Builder.Walk | utilities/nxo64.py:231-245 | the inner loop yields the parts of one segment |
| CodePatch.BranchLands | emummc/source/main.c:70 | the encoded instruction is a B, and lands on its target if and only if that is less than 128 MiB ahead or at most that behind |
| CodePatch.AdrpRoundTrip | emummc/source/main.c:69 | the split immediate decodes to the page offset if and only if it is within 4 GiB |
| CodePatch.AddRoundTrip | emummc/source/main.c:68 | an ADD with both registers and the value given |
| CodePatch.AdrpAddReaches | emummc/source/main.c:268-278 | executing the pair gives the destination's low half under the upper half of the program counter |
| CodePatch.Write32 | emummc/source/main.c:253-255 | one word of the mapped code changes |
| CodePatch.HookFunction | emummc/source/main.c:257-261 | one word becomes a branch, which lands on the target if and only if it is in range |
| CodePatch.WriteAdrpAdd | emummc/source/main.c:268-278 | two words become ADRP and ADD on the register, which give the destination's low half under the program counter's upper half, and so reach it if and only if it shares the 4 GiB of the program counter; an ADD on the same word replaces the ADRP |
| Package3.Pad | fusee/build_package3.py:16-18 | exactly the size asked for, beginning with the data and zero behind it |
| Package3.PadTo | fusee/build_package3.py:16-18 | raises if and only if the data is too long |
| Package3.WriteContentHeader | fusee/build_package3.py:83-95 | raises if and only if offset or size does not fit 32 bits |
| Package3.WriteKipMeta | fusee/build_package3.py:44-50 | raises if and only if size or offset from 1 MiB does not fit 32 bits |
| Package3.KipInArea | fusee/build_package3.py:114-134 | every KIP lies at its 16-aligned start, ending before the next one starts |
| Package3.EmummcInArea | fusee/build_package3.py:114-124 | the area begins with emuMMC |
| Package3.GapInArea | fusee/build_package3.py:114-134 | from the end of emuMMC or a KIP to the next KIP there is only 0xCC |
| Package3.ContentHeaderFields | fusee/build_package3.py:83-95 | offset and size read back from a packed content header |
| Package3.WriteKips | fusee/build_package3.py:114-134 | appends the KIP area and fills it up to 3 MiB |
| Package3.WriteKipHeaders | fusee/build_package3.py:92-98 | its running offset is the start of each KIP; raises if and only if one of those or a size does not fit its field |
| Package3.WriteKipMetas | fusee/build_package3.py:104-110 | so is this one, and it raises alike |
| Package3Image.Overlay | fusee/build_package3.py:20-21 | exactly the program's 80 KiB at the overlay's place, short only where the program ends |
| Package3Image.PlannedExactlyWhenFits | fusee/build_package3.py:169-195 | every component starts at the header's constant offset in a file of 8 MiB if and only if both overlays are whole and the KIPs fit |
| Package3Image.HeaderSelectsComponent | fusee/build_package3.py:52-112 | read from the finished file: total size, header offset and count are right, and each of the 15 offset and size pairs selects exactly its component's bytes |
| Package3Image.PreambleWords | fusee/build_package3.py:52-81 | read from the finished file: metadata offset, flags, mesosphere size, counts, sizes, offset and revision of the header |
| Package3Image.PreambleBytes | fusee/build_package3.py:56-79 | both magic numbers, and supported and release version from release step up to major number |
| Package3Image.ReservedBytes | fusee/build_package3.py:66-72 | the reserved words are 0xCC |
| Package3Image.HeaderNamesComponent | fusee/build_package3.py:82-98 | each of the 15 content headers has the kind and the zero-padded name of its component |
| Package3Image.OverlaysInPlace | fusee/build_package3.py:155-181 | the Erista overlay with its hash at 0x20000, the Mariko overlay with its hash at 0x34000, the splash screen at 4 MiB |
| Package3Image.ZerosBehindComponent | fusee/build_package3.py:171-193 | the room behind each padded component is zero |
| Package3Image.KipGap | fusee/build_package3.py:114-134 | the KIP area of the file is filled up between KIPs |
| Package3Image.FillersInPlace | fusee/build_package3.py:99-195 | the rest of the header, of the KIP area and of the file is 0xCC |
| Package3Image.MetaAgreesWithHeader | fusee/build_package3.py:44-50 | read from the finished file: each KIP meta has the offset and size of the content header, the KIP's program id and its hash, at a 16-aligned offset |
| Package3Image.ComponentsApart | fusee/build_package3.py:82-98 | no two announced components overlap |
| Package3Image.WriteHeader | fusee/build_package3.py:52-112 | raises if and only if some size or offset does not fit its field; otherwise 0x800 bytes, the header's parts in order |
| Package3Image.WriteFront | fusee/build_package3.py:168-184 | raises if and only if the header or one of the five pads before the KIPs does |
| Package3Image.WriteBack | fusee/build_package3.py:185-195 | raises if and only if one of the two pads behind the KIPs does |
| Package3Image.Build | fusee/build_package3.py:168-195 | the assertions, the pads and the packed fields raise if and only if the input is not accepted; otherwise the file is the parts in order |

## Left out

- Everything else in the repository: the kernel, the services, the libraries, the fusee program, and
  drivers beyond the parts above.
- Lz4Uncompressor.Uncompressor.Copy: `memcpy` on overlapping memory is taken as a copy upwards,
  which is how it is used when decoding in place.
- Lz4Uncompressor.UncompressBootCode: the margin is a condition on the image; that the image shipped
  in the repository has it is a fact about a build product.
- Lz4Format.ExecuteMeaning: blocks with a match offset of zero, which the block format does not
  allow and the decoder accepts without changing the region's bytes, have no meaning here; the
  decoder and the method are still exact on them.
- 64-bit overflow of source and destination offsets in the LZ4 decoder.
- BlzDecoding.RoundTrip: images with an uncompressed prefix in front of the compressed part have no
  round trip, because the decoder runs on into the prefix; `PrefixKeptExactly` says when one is kept.
- SmmuCoherence.Keep: one address space; a flush takes effect at once, and a fill reads all words
  of its walk in one step. The registers behind the flushes are not modelled.
- DevicePageTable.MapImpl: the directory is empty at the start, as both callers leave it; device
  addresses stay within one 4 GiB region and are page aligned.
- SdStorage.Storage.InitSd: the command sequences, voltages and tuning of card initialisation are
  reduced to success or failure, as are the commands of a transfer.
- SdStorage.Storage.ReadWrite: the delay between attempts, and bounce buffers chosen by address.
- Emummc.Mmc.GppAccess: a file index behind the open files counts as a failed access; what the code
  finds there is not modelled. Only empty accesses and sums past 32 bits can get there
  (`PieceFits`, `LeavesOpenParts`).
- Emummc.Mmc.Open: part files are whole sectors, all but the last of one size; opening, cluster
  tables and paths are not modelled.
- Emummc.Mmc.Run: FatFs is a file that reads and writes or fails; mutexes and the switching of the
  SD card between drivers are not modelled.
- Sdma.Controller.UpdateDma: the interrupt register, polling and reset are one failed or answered
  pause.
- MapWindow.HoldingProtects: memory sizes whose end is a 64-bit address; the page for secure monitor calls, which has
  no lock, and the copying done through the windows are not modelled.
- FatalHandoff.RunInv: up to 8 cores, as many as the mask has bits; that the data cache is flushed
  between the store of the mask and the interrupt is taken as the store being visible.
- SegmentBuilder.Builder.AddSegment: sizes are not negative.
- CodePatch.WriteAdrpAdd: both instructions lie inside the mapped code.
- Package3Image.Build: hashes are inputs of the right length, KIPs come under their names and have the
  header their program id is read from, and reading files and arguments is not modelled.
