# Limine, proved in parts

Limine is a boot loader with a set of host tools. This project models the parts of it whose correctness rests on an
algorithm rather than on a device, and proves what each part is for.

| area | modules |
|---|---|
| the packer of the BIOS stages and the decompressor that undoes it at boot | `Numeral`, `Words`, `Crc`, `IntervalCoder`, `RangeEncoder`, `Codebook`, `StreamDecoder`, `SyntaxDecoder`, `OptimalParse`, `Tokens`, `Decisions`, `Bcj`, `Packer` |
| the installer's device layer, its undo journal and the GPT-to-MBR conversion | `Blocks`, `Device`, `GptToMbr`, `HybridInstall` |
| write combining in the firmware's page tables | `PageTables`, `WriteCombining` |
| reading volumes, FAT files and logical partitions | `Volume`, `Fat`, `Ebr` |
| the menu: paths, rows and finding one by the other | `MenuPath`, `Menu`, `MenuRows` |
| the EFI memory map, BLAKE2b as a stream, ELF segments and relocations | `MemoryMap`, `Blake2b`, `Segments`, `Relocations`, `Relr` |

`dafny verify dfyconfig.toml` checks all of it.

## How the parts fit together

**The packer.** `Packer.Compress` runs the packer as written: checksum, branch filter in place, match finder and
backward parse, token loop with the four-entry distance queue, adaptive range coder with delayed carry, five closing
shifts. `Packer.Unpack` is the boot-time decompressor of `stage1/decompressor.asm`, written from that program and not
from the packer, with its own offsets, updates, states, queue moves and filter tests: header checks, bit-by-bit range decoder, token syntax, overlapping copies, end-of-stream checks, inverse
filter, checksum. The theorem is that the second undoes the first, for every input. Between the two stands the
interval a run of decisions narrows (`IntervalCoder`): the encoder's registers always spell its lower end as one
base-256 numeral, and the decoder is always in step with any number inside it.

**The device.** The model gives the medium a per-transfer behaviour that may fail at any time, and lets a failed
write land any subset of its bytes. What is seen through the cache is then a flat array of bytes; the journal records,
for every byte a completed write changed, the value it had at first. A write that fails part way is not journaled by
the program; the model keeps the bytes it reached in a ghost set `lost`, and every undo theorem is stated off that
set. On a device without faults the set stays empty, so there an installation is all or nothing.

**Page tables.** Memory is a map from table addresses to tables; what an address translates to is defined by the
hardware's walk. The walk that splits and retypes pages is shown to confine itself to the tables it owns, and the log
to give every firmware slot back.

## Model

| member | source | states |
|---|---|---|
| `Packer.Compress` | tools/limlzpack.c:378-469 | for every input, the decompressor of stage 1 accepts the packed stream at any capacity the data fits in and gives back exactly that data; the parse coded is a cheapest one of the filtered data; packing fails exactly when the decisions of the whole parse do not fit the room, and the stream has exactly the length they call for, and there are no more decisions than the parse is priced at |
| `Packer.StreamUnpacks` | stage1/decompressor.asm:107-148 | a header with checksum and size and a payload that decodes to the filtered data unpack to the data, through every check the decompressor makes |
| `Packer.PayloadRuns` | stage1/decompressor.asm:210-262 | a payload that holds a whole run of tokens is decoded to the data the run was made from and passes the end-of-stream check |
| `Packer.EncodeAll` | tools/limlzpack.c:411-461 | the main loop codes the decisions of the parse from its start, all of them unless the output has run full |
| `Packer.EncodeToken` | tools/limlzpack.c:411-461 | one step codes exactly the decisions of its literal, short repeat, repeat or match, and leaves state and distance queue as the decoder will have them |
| `Crc.ComputeChecksum` | tools/limlzpack.c:59-73 | the loop computes the CRC over the whole buffer, byte by byte through the nibble table |
| `Crc.FirstValues` | tools/limlzpack.c:66-72 | the register starts from all ones and is complemented in the end: no bytes come to 0 and a zero byte to 0xd202ef8d |
| `Crc.ByteIsBits` | tools/limlzpack.c:59-73 | the two look-ups for a byte are eight steps of the division by the reflected polynomial 0xedb88320 |
| `Crc.UpdateBitwise` | host/limine.c:705-716 | the installer's bit-by-bit loop computes what the packer's table does |
| `Crc.OneByteDetected` | stage1/decompressor.asm:517-535 | a buffer of which one byte was changed has another checksum |
| `Packer.PackedSizeGrows` | tools/limlzpack.c:99-118 | what does not fit yet will not fit when more is coded |
| `Decisions.PriceIs` | tools/limlzpack.c:252-302 | a choice is priced at the number of decisions it takes: exactly for a plain literal and for a match whose distance is not in the queue, and never too low |
| `Decisions.RunPrice` | tools/limlzpack.c:260-305 | a whole parse takes at most as many decisions as it is priced at |
| `Decisions.RunOk` | tools/limlzpack.c:411-461 | every decision of every parse uses a probability inside the table |
| `IntervalCoder.RunsDisjoint` | tools/limlzpack.c:149-161 | two runs of decisions, each coded as the decisions before it call for, of which neither continues the other, end in disjoint intervals, so no number stands for both |
| `IntervalCoder.DistinctEventsDisjoint` | tools/limlzpack.c:149-161 | two runs of decisions that first differ in which way one and the same decision goes end in disjoint intervals |
| `IntervalCoder.Step` | tools/limlzpack.c:149-161 | after every decision the range is at least 2^24 and every probability in 31..2017, so one normalising shift always suffices |
| `IntervalCoder.Adapt` | tools/limlzpack.c:149-161 | a probability moves a thirty-second of the way, rounded down, up on a zero and down on a one, and stays in 31..2017 |
| `StreamDecoder.Updated` | stage1/decompressor.asm:186-205 | the decompressor's own update agrees with it |
| `SyntaxDecoder.Base` | stage1/decompressor.asm:296-312 | the decompressor's shifted slot bits are where the slot's distances begin |
| `SyntaxDecoder.Predicted` | stage1/decompressor.asm:241-256 | its choice of a literal's probability, from node, match half and predicted bit, is the packer's |
| `Tokens.LiteralState` | stage1/decompressor.asm:232-240 | its subtractions give the packer's state after a literal |
| `Tokens.RepState` | stage1/decompressor.asm:264-379 | and its bit operations the state after a repeat |
| `RangeEncoder.ShiftSpells` | tools/limlzpack.c:126-140 | shifting a byte out keeps the numeral spelled by emitted bytes, cached byte, pending run and low, times 256 |
| `RangeEncoder.CarryFits` | tools/limlzpack.c:126-140 | a carry never spills past the cached byte |
| `RangeEncoder.Encoder.ShiftLow` | tools/limlzpack.c:126-140 | the registers after the call are those of the abstract shift, on either branch |
| `RangeEncoder.Encoder.Normalise` | tools/limlzpack.c:142-147 | one conditional shift brings the range back to 2^24 and scales the numeral with it |
| `RangeEncoder.Encoder.EncodeBit` | tools/limlzpack.c:149-161 | coding a bit adds that decision to the run the registers stand for |
| `RangeEncoder.Encoder.Flush` | tools/limlzpack.c:462-469 | the five closing shifts emit a numeral equal to the lower end of the final interval, one byte per shift made |
| `Codebook.EncodeTree` | tools/limlzpack.c:163-170 | codes the decisions of a tree code, every probability index in bounds |
| `Codebook.EncodeReverse` | tools/limlzpack.c:172-179 | codes the decisions of a reversed tree code |
| `Codebook.EncodeLength` | tools/limlzpack.c:181-193 | codes a match length in its short, middle or long form |
| `Codebook.EncodeDistance` | tools/limlzpack.c:195-226 | codes a distance as slot and footer |
| `Codebook.EncodeLiteral` | tools/limlzpack.c:307-323 | codes a literal, predicted by the byte at the last distance after a match |
| `SyntaxDecoder.TreeReads` | stage1/decompressor.asm:427-438 | any reader that delivers decisions reads a tree code back |
| `SyntaxDecoder.ReverseReads` | stage1/decompressor.asm:310-379 | and a reversed code |
| `SyntaxDecoder.LengthReads` | stage1/decompressor.asm:407-424 | and a length |
| `SyntaxDecoder.DistanceReads` | stage1/decompressor.asm:310-379 | and a distance, over the full 32-bit range |
| `SyntaxDecoder.LiteralAtReads` | stage1/decompressor.asm:210-262 | and a literal, matched or not |
| `StreamDecoder.StreamDelivers` | stage1/decompressor.asm:164-208 | the bit-by-bit range decoder over a stream inside the final interval delivers the coded decisions one after the other |
| `StreamDecoder.ReadsEnd` | stage1/decompressor.asm:440-446 | after the last decision the decoder has consumed the whole stream and its code is zero |
| `Tokens.StaysReachable` | tools/limlzpack.c:411-461 | state stays below 12, a state of 7 or more has the first distance within reach, and all four distances stay in range, on every run |
| `Tokens.TokenReads` | stage1/decompressor.asm:264-379 | the decisions of a token are read back as that token, with the same queue and state |
| `Tokens.PerformExtends` | stage1/decompressor.asm:380-404 | performing the packer's token, overlapping copies included, extends the output by exactly the bytes it stands for |
| `Tokens.RunReads` | stage1/decompressor.asm:210-404 | over a whole run the decoder reproduces the data |
| `OptimalParse.MatchFinder.Parse` | tools/limlzpack.c:260-305 | the choices make up a parse whose total price no parse from literals and any length of any of the first 128 chain candidates undercuts, at every position |
| `OptimalParse.CandidateIs` | tools/limlzpack.c:228-279 | the candidates at a position are the nearest 128 earlier ones with the same two bytes |
| `OptimalParse.FollowPrice` | tools/limlzpack.c:260-305 | following the choices costs what the cost array says |
| `OptimalParse.MatchFinder.Insert` | tools/limlzpack.c:232-238 | head and previous links stay the chains of equal hashes |
| `OptimalParse.MatchFinder.Length` | tools/limlzpack.c:240-250 | the length is the longest agreement at the distance, up to the limit |
| `Bcj.EncodeInPlace` | tools/limlzpack.c:325-376 | the in-place loop computes the filter function |
| `Bcj.FilterRoundTrip` | stage1/decompressor.asm:447-516 | the inverse filter, with its own tests, ageing and sign extension, gives every buffer back |
| `Bcj.FlipIs` | tools/limlzpack.c:359 | the correction complements the guarded byte and all below it, and nothing above |
| `Bcj.UnmixLoop` | stage1/decompressor.asm:483-507 | the adjusting loop ends within two rounds on an operand whose guarded byte is clear, with the inverse's value |
| `Bcj.AlwaysGuarded` | stage1/decompressor.asm:447-516 | on every stream the guarded byte is clear wherever the inverse rewrites an operand, so that loop always ends |
| `Device.Disk.Install` | host/limine.c:489-598 | a run of reads and writes followed by a flush ends with the medium holding all its effects, or rolled back; on a healthy device it succeeds exactly when every range is on the medium and the writes fit the journal, and otherwise leaves the medium as it was |
| `Device.Disk.Rollback` | host/limine.c:1781-1787 | from any cache state, even a dirty block that never reached the medium, a successful undo restores every byte not lost to an interrupted write; on a healthy device it succeeds |
| `Device.Disk.Uninstall` | host/limine.c:548-598 | dropping the cache, replaying newest first with one retry and flushing restores the medium if it reports success, and it does so whenever no entry met more than one failure and the last flush none |
| `Device.Disk.ReverseJournal` | host/limine.c:340-346 | the reversed journal can put every recorded byte back |
| `Device.Disk.Write` | host/limine.c:489-546 | a completed write changes exactly its range in view and journals the bytes that were there; an interrupted one changes a prefix and journals nothing; a full journal refuses |
| `Device.Disk.Read` | host/limine.c:467-487 | a read through the cache gives the bytes in view, and on a healthy device fails exactly off the medium's whole blocks |
| `Device.Disk.CacheBlock` | host/limine.c:296-324 | replacing the cached block leaves the view as it was |
| `Device.Disk.Flush` | host/limine.c:268-294 | writing back leaves the view as it was; each byte of the medium is the old one or the one in view, even if the write is torn |
| `Device.LastBlock` | host/limine.c:870-919 | doubling and halving find the last whole block, and the overflow exit is never taken |
| `HybridInstall.ConvertAndInstall` | host/limine.c:1150-1530 | a converted image keeps every byte of every used partition, every byte of its first sector is settled (boot code, identifier, active flag, and entries that denote exactly the table's partitions), stage 2 is where the boot sector says, and what was erased, alternate headers included, reads as zero; refused tables are left alone; on a healthy device a failed run leaves the medium unchanged, and an image is installed if and only if it is acceptable, as the journal cannot fill up |
| `HybridInstall.ConversionSector` | host/limine.c:1738-1766 | byte by byte, the first sector is the boot sector's but for timestamp, stage 2's address, identifier and table |
| `HybridInstall.MagicRefused` | host/limine.c:674-685 | a medium whose usable blocks start at block 2 keeps an ext magic number at byte 1080 through the conversion, so it is refused unless forced |
| `HybridInstall.MagicSurvives` | host/limine.c:1350-1412 | after the conversion that magic number is there exactly if it was before and its block is not erased |
| `HybridInstall.ConvertedPasses` | host/limine.c:1420-1517 | a converted first sector passes every check of the finished MBR, with no partition marked active |
| `HybridInstall.ConversionClears` | host/limine.c:1357-1380 | from byte 512 on, every byte of the blocks to erase is zero in the end, but for stage 2 |
| `GptToMbr.Gather` | host/limine.c:1190-1279 | exactly the tables with at most four used entries, all ordered, usable, on the medium and within 32 bits of sectors, are accepted, and their parts are the converted entries |
| `GptToMbr.SameExtent` | host/limine.c:1209-1257 | an MBR entry denotes, in sectors, the byte extent of its GPT entry |
| `GptToMbr.ChsReads` | host/limine.c:153-174 | the three address bytes of a sector within reach, taken as head, sector and cylinder, denote that sector |
| `GptToMbr.ReservesAre` | host/limine.c:1350-1360 | both reserves are the fewest blocks for their headers and 16384 bytes of entries, the primary one cut short at the first usable block but not below two |
| `GptToMbr.CandidatesAre` | host/limine.c:1295-1330 | an alternate header is looked for where the header says and at the end of the medium, once, if its reserve fits ahead of it |
| `GptToMbr.WipeIs` | host/limine.c:1295-1350 | what is erased for an alternate header is its reserve as far as it lies past the last usable block |
| `GptToMbr.PlanWipes` | host/limine.c:1295-1350 | for every alternate header found the plan erases it and the entry array ahead of it, as far as that lies past the last usable block, and it fails exactly when such a header lies in the usable range |
| `GptToMbr.ConversionKeeps` | host/limine.c:1352-1412 | erase, identifier, table, signature, forced mends, boot sector and stage 2 touch no byte of a partition |
| `GptToMbr.ConversionLists` | host/limine.c:1395-1411 | the table read back lists each partition without truncation, and its other entries are empty |
| `GptToMbr.ConversionSize` | host/limine.c:496-499 | a conversion takes at most 125 writes, whatever the table |
| `GptToMbr.BootReads` | host/limine.c:1738-1766 | stage 2 lies at byte 4096, where the boot sector says, and the table reads as before |
| `WriteCombining.Tables.SetFramebuffer` | common/mm/efi_pt.c:283-317 | off the pages that hold a byte of the framebuffer every translation is unchanged; on them every page is mapped write-combining, with its frame and rights unless its table gave way to a leaf, or unchanged with the log full; a page mapped before and off the range keeps the memory type its index stands for |
| `WriteCombining.JobPages` | common/mm/efi_pt.c:299-300 | the pages walked are exactly those that hold a byte of the framebuffer |
| `WriteCombining.Tables.WcWalk` | common/mm/efi_pt.c:227-281 | the same for any table of the tree, touching only the tables below it and new ones |
| `WriteCombining.SplitMaps` | common/mm/efi_pt.c:205-224 | the table of a split leaf maps every page as the leaf did |
| `WriteCombining.RetypedMaps` | common/mm/efi_pt.c:238-257 | a leaf in place of a wholly covered slot maps its pages with the new type |
| `PageTables.SetPat` | common/mm/efi_pt.c:195-203 | the entry then selects the given index, and keeps presence, rights and every address bit |
| `WriteCombining.Tables.EnsureSlot` | common/mm/efi_pt.c:140-193 | a type is reused or put into an index that no present entry at any level and not CR3 selects; it fails only if there is none |
| `WriteCombining.Tables.ScanWalk` | common/mm/efi_pt.c:113-129 | the scan returns exactly the indices selected by present entries, early exit included |
| `WriteCombining.WalkSelects` | common/mm/efi_pt.c:103-129 | the type index of every mapping is among those scanned |
| `WriteCombining.Tables.Restore` | common/mm/efi_pt.c:319-348 | after any number of calls every firmware slot, the PAT and the translation of every address are the initial ones, slots saved twice and a full log included |
| `WriteCombining.Tables.SaveSlot` | common/mm/efi_pt.c:49-57 | saving a slot keeps the log able to give every firmware slot back, and is refused exactly when the log is full |
| `Volume.Vol.Read` | common/lib/part.s2.c:71-108 | whatever was cached before, a read gives the medium's bytes at the volume's place; on a healthy drive with the whole volume on it, it fails exactly out of bounds |
| `Volume.Vol.CacheBlock` | common/lib/part.s2.c:19-69 | no sector at or past the volume's rounded-up end is asked for, and a transfer cut short covers the rest of the volume |
| `Volume.Vol.LoadedSees` | common/lib/part.s2.c:95-104 | whatever of the volume falls into the cached block is in the part that was transferred |
| `Fat.CacheChain` | common/fs/fat32.s2.c:284-358 | a chain is returned exactly when the links from the start stay readable and reach an end value within 16M clusters; it repeats no cluster |
| `Fat.ChainFits` | common/fs/fat32.s2.c:298-312 | by pigeonhole no such chain exceeds the bounds taken from the table, for FAT12, 16 and 32 |
| `Fat.ChainDistinct` | common/fs/fat32.s2.c:298-347 | a chain that ends repeats no cluster |
| `Fat.ReadEntry` | common/fs/fat32.s2.c:227-279 | the entry read is the cluster's successor on the medium, in all three widths |
| `Fat.Packed12Reads` | common/fs/fat32.s2.c:227-279 | two entries packed into three bytes are read back as those two |
| `Fat.Packed32Reads` | common/fs/fat32.s2.c:227-279 | and entries of 28 bits whatever the spare nibble holds |
| `Fat.LimitIs` | common/fs/fat32.s2.c:287-289 | the last sixteen values of an entry's width are no clusters |
| `Fat.ClustersApart` | common/fs/fat32.s2.c:360-393 | distinct clusters have no byte in common |
| `Fat.ClusterInside` | common/fs/fat32.s2.c:314-327 | every accepted cluster lies wholly in the volume |
| `Fat.InsideIsReadable` | common/fs/fat32.s2.c:314-327 | and every cluster that does is accepted |
| `Fat.Open` | common/fs/fat32.s2.c:735-756 | an opened file's chain can hold its size; on a healthy drive opening fails only if no readable chain does |
| `Fat.ReadFile` | common/fs/fat32.s2.c:360-393 | within the size a read gives the slice of the concatenated clusters, and fails only if the drive does |
| `Ebr.Prober.Probe` | common/lib/part.s2.c:715-838 | a probe finds what a walk from the head finds with as many records more as the memo is down the chain; for chains of at most 256 records that is the walk from the head, in whatever order partitions are asked for; what is found lies in the extended partition and on the disk; and it is the partition with exactly so many before it along the chain of records, its start counted from its own record's sector |
| `Ebr.ContainedIs` | common/lib/part.s2.c:703-713 | a slot is contained if it is not empty and ends no later than the extended partition and the disk, as far as their sizes are known |
| `Ebr.WalkAnswers` | common/lib/part.s2.c:715-838 | a walk finds exactly the data slot with that number of counted slots before it, along first links that go forward |
| `Ebr.OneEach` | common/lib/part.s2.c:715-838 | with one partition a record, number k is the one of the k-th record |
| `Ebr.WalkFrom` | common/lib/part.s2.c:728-736 | a walk may begin at any record whose count does not exceed what is wanted |
| `Ebr.WalkInside` | common/lib/part.s2.c:703-713 | every partition found is contained |
| `MenuRows.SelectByPath` | common/menu.c:1063-1115 | for every shown entry, finding it by its own path returns it at the row it then has; of all rows of the projection exactly that one matches the path, and the test of a row accepts it exactly if the entry is at most 64 deep |
| `Menu.View.Find` | common/menu.c:1063-1115 | an entry is found exactly if its chain of names and ordinals is what the path says, and with expansion on the index is its row |
| `Menu.RowsAreShown` | common/menu_model.c:21-46 | the rows are exactly the entries that apply and whose directories are all expanded |
| `Menu.RowsInOrder` | common/menu_model.c:21-46 | in the order of the tree read from the top |
| `Menu.SameIs` | common/menu.c:788-800 | an ordinal is the number of earlier siblings shown under the name |
| `Menu.ChainInjective` | common/menu.c:788-800 | different entries have different chains |
| `Menu.View.Count` | common/menu_model.c:7-19 | the count is the number of visible rows |
| `MenuPath.TextParses` | common/menu.c:829-862 | parsing the text of a chain gives the chain back |
| `MenuPath.EntryPath` | common/menu.c:829-862 | the path printer writes that text if it fits the buffer, and never past it |
| `MenuPath.EscapeName` | common/menu.c:804-827 | escaping writes the whole name if it fits, and never past the buffer |
| `MenuPath.ParseComponent` | common/menu.c:995-1058 | the two passes agree on the name's length and give the component and the rest of the path |
| `MenuPath.MatchesOnly` | common/menu_model.c:76-97 | no chain but its own matches a path |
| `MenuRows.RowMatches` | common/menu_model.c:68-98 | a row matches exactly if it is at most 64 deep and its chain of ancestors reads as the path |
| `MenuRows.Model.Project` | common/menu_model.c:21-46 | the rows and entries written are the flattened tree, each within the counted buffers |
| `MenuRows.ProjectionTells` | common/menu_model.c:21-46 | every row tells its entry's depth, and whether it is a directory, is expanded and has a sibling after it |
| `MenuRows.OnlyItsRow` | common/menu_model.c:21-98 | a visible entry's path matches its own row and no other |
| `MemoryMap.RebuildInBuffers` | common/lib/misc.c:447-556 | with the buffers the loader asks for, a map of disjoint descriptors never exhausts the copy |
| `MemoryMap.Rebuild` | common/lib/misc.c:495-556 | the rebuilt map gives every address the kind and attributes it had, except that loader-owned memory becomes conventional, and has the same total, exactly when no descriptor reaches the end of the 64-bit space; at most two entries per region are added, and a piece keeps the virtual address only where its descriptor starts |
| `MemoryMap.Split` | common/lib/misc.c:507-553 | the pieces of a descriptor lie end to end, each wholly owned or wholly not, cut only at region edges |
| `MemoryMap.FindRun` | common/lib/misc.c:516-536 | a run is owned or not as a whole and stops at the next edge |
| `MemoryMap.LastPageLost` | common/lib/misc.c:504-505 | a descriptor ending at 2^64 is dropped, its top being zero in 64 bits |
| `Blake2b.Hash.Final` | common/crypt/blake2b.c:199-213 | the digest is that of section 3.3 of RFC 7693 for everything fed in |
| `Blake2b.Hash.Update` | common/crypt/blake2b.c:168-197 | the state is the one the whole message so far leads to, however it came in |
| `Blake2b.StreamDigest` | common/crypt/blake2b.c:168-213 | holding the last block back gives the digest of section 3.3 of RFC 7693 for every message |
| `Blake2b.ChunksAgree` | common/crypt/blake2b.c:168-197 | two streams fed the same message in any pieces hold the same state and counter |
| `Blake2b.Hash.Increment` | common/crypt/blake2b.c:77-80 | the two counter words count as one number of bytes |
| `Blake2b.Filter.Read` | common/crypt/blake2b.c:235-245 | only the next bytes can be read, and they are hashed as read |
| `Blake2b.Filter.Check` | common/crypt/blake2b.c:280-290 | the comparison is with the digest of what had been read when it was first asked for |
| `Segments.Load` | common/lib/elf.c:1035-1166 | exactly the images acceptable as a whole whose bytes are in the file are loaded, each segment holding its bytes of the file, then zeros, relocated in place, and everything else zero |
| `Segments.Validate` | common/lib/elf.c:1035-1100 | comparing each segment with its predecessor accepts exactly the images whose segments are pairwise ordered and disjoint, equal in permissions on any shared page, and in one half |
| `Segments.NeighboursSuffice` | common/lib/elf.c:1065-1083 | agreement with the previous segment is agreement with all |
| `Segments.CopyAll` | common/lib/elf.c:1128-1166 | every copy and every relocation lands inside the allocated image, and none undoes another |
| `Relocations.Relocate` | common/lib/elf.c:623-675 | the loop applies, in order, exactly the relocations whose word lies in the segment, and touches nothing outside it |
| `Relocations.TargetsLeft` | common/lib/elf.c:632-675 | where no two words overlap, each relocation leaves its target, made from the word as loaded |
| `Relocations.Store` | common/lib/elf.c:604-621 | a word stored byte by byte lies there least significant byte first |
| `Relr.Unpack` | common/lib/elf.c:498-567 | a pool of the counted size is filled with exactly the table's addresses, for every table |
| `Relr.DecodeEncode` | common/lib/elf.c:536-567 | a table made from addresses, each with bitmaps of 63 words after it, stands for those addresses in order |
| `Relr.Count` | common/lib/elf.c:498-513 | the popcount pass counts the addresses the table stands for |
| `Relr.Fill` | common/lib/elf.c:536-567 | the fill pass writes those addresses, in order and never past the pool |

## Left out

- Allocation: memory is assumed to be granted, except that the packer's output may run out of room (`limit`).
- Position state: the packer passes position 0 to every call that takes one, so the model has no position state.
- The decompressor's capacity is a build-time constant; here it is a parameter, and the theorem holds for every value.
- Device: a seek that fails is taken as a transfer that fails; file and stdio plumbing, the saved undo file and block size probing are not modelled.
- Device.Disk.Write: an interrupted write is not journaled by the program, so the bytes it reached are promised to no undo; they are the ghost set `lost`.
- HybridInstall.ConvertAndInstall: reading and verifying the GPT and deriving the disk identifier are inputs. Tables declaring more than 256 entries are refused by the program before this point. That exactly the acceptable images are installed is stated for devices accessed in 512-byte blocks, which is the first size the program tries.
- WriteCombining.Tables.SetFramebuffer: firmware tables are assumed to form a tree, and allocated tables not to alias them; cache flushes, CR0, CR3 and CR4 writes are no-ops. Entries are records of the bits the code uses, and addresses are counted in pages without sign extension.
- Volume.Vol.Read: the medium does not change between reads; PXE volumes and an overflowing transfer size, which panic, are not modelled.
- Fat.CacheChain: the boot sector's fields are taken in the ranges its checks leave; directory lookup and long names are not modelled. Exactness is stated for volumes of known size that lie wholly on a healthy drive.
- Ebr.Prober.Probe: what each sector of the extended partition holds is an input that does not change.
- MenuRows.SelectByPath: the configuration parser's own cap of 64 levels is not assumed; names are not empty, and the path fits the buffer of 1024; whether a leaf entry is skipped is a flag of the entry, and directories never are. Expanded flags are kept as a set of addresses beside the tree. The loader-interface identifiers and menu drawing are not modelled.
- MemoryMap.Rebuild: descriptors and usable regions are page-aligned, as the firmware and the loader's own map keep them; the calls that fetch the map and leave boot services are not modelled.
- Blake2b.Hash.Final: the compression function and the initial value are parameters.
- Segments.Load: image memory is addressed from its own start, and relocations come resolved to a word and an address; symbol lookup, KASLR and instruction-cache upkeep are not modelled.
- Relr.Unpack: locating the table is not modelled.
- Everything else of the repository (protocols, other file systems, decompressors, drivers, terminal, configuration parsing, Python tools) would add easy members or hardware I/O, and is not modelled.
