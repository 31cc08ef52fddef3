# JoshBIOS boot stack: a verified model

This project models the parts of the JoshBIOS boot stack that parse untrusted layouts, move
bytes and keep durable state, and proves what they promise. `dafny verify dfyconfig.toml`
checks everything.

The main results, by module:

- **`Elf64`, `Paging`, `UefiPaging`, `UefiTables`, `UefiLoader`** take a kernel image to the
  memory the kernel sees on UEFI. Validation accepts exactly the well-formed images.
  `map4k` over a 48-page pool changes the translation of one page and aliases no table;
  `build_tables` never fails for lack of tables (42 of 48 suffice) and yields exactly the
  identity map below 4 GiB plus the kernel pages. A hardware page walk composed with the
  loaded pages reads the ELF image, gaps being zero. The address-exact form holds if and only
  if `virtual_min` is page aligned, which the loader does not check; for any image it is stated
  exactly which bytes the kernel sees.
- **`BiosTables`, `BiosLoader`** do the same for the BIOS path, with 2 MiB pages at fixed
  addresses and one memory shared by the staged image and the loaded segments. A segment may
  be placed on the very buffer it is copied from and the next ones are parsed from; the model
  performs that ascending copy byte by byte, for every image, and says exactly which images
  come out right. `Witness` holds a 122-byte image that does not, on either loader.
- **`Block`, `Partition`, `Chains`, `Fat32`, `Fat32Read`, `Fat32Dir`, `Fat32Path`,
  `KernelFile`** are the partition and FAT32 reader over an arbitrary disk with failing
  sectors. A read refines "the file is the concatenation of its clusters"; a directory search
  is a linear scan; the cycle guard never fires on a chain that ends. `Fat32Table` ties chains,
  mounted geometry and file bytes to the FAT specification's word array and sector formulas,
  and `DiskFormats` and `ElfFormat` (over `Layouts`) give MBR, GPT, boot sector, directory
  entries and ELF images as concatenations of their fields in the order of their standards,
  and show that the parsers read them as written.
- **`Isolation`** shows that writes to the health sectors change no partition choice, mount,
  path lookup, read or kernel.
- **`Health`, `HealthStore`, `BootSlots`, `Trials`** are the boot-health protocol: the record
  and its checksum, the two durable copies under crashes and torn writes over whole runs, the
  slot selection and its UEFI loop, and the number of times a pending slot is entered.
  `HealthHistory` says what the fields of the surviving record tell about the run.
- **`BiosBoot`** puts the disk side together: `load_kernel_file` from partition search to
  loaded kernel, reading every candidate from the disk that the health writes of the same
  loop are changing. The outcome is the selection that the disk at power on determines.
  `BootRuns` repeats it: over any number of boots from disk, a pending slot is loaded at most
  3 times.
- **`Firmware`, `FirmwareRuns`** are the A/B update engine over a flash that may fail or
  misbehave, and its safety over whole runs.
- **`Crc32`, `CrcPolynomial`, `Runtime32`, `Bits`, `Words`** hold the arithmetic: CRC-32, proved
  to be the remainder of polynomial division by the CRC-32 generator (the checksum of section 8
  of RFC 1952), the 64-bit shift-subtract divider, bit operators on natural numbers, words and
  the little-endian codec.
- **`Config`, `ConfigText`, `ConfigKeys`, `ConfigLayout`** are the configuration parser, its
  meaning as a multiset of settings, what each literal key sets, and the round trip through
  rendering.

Modelling decisions:

- Integers are subset types of `int` with their C width; every wrap-around is written out
  (`Wrap32`, `Wrap64`). `&`, `|` and `^` are defined digit by digit in `Bits`; where a
  definition uses `/` or `%` instead of a mask or shift, a lemma proves the two equal
  (`Paging.FrameMask`, `Fat32.MaskIsRemainder`, `Bits.PowerOfTwoTest`).
- A disk is its sectors and the set of sectors that fail to read. Read failures are a property
  of the sector for the duration of a call.
- Objects that the source updates in place are classes (`PagePool`, `HealthRecord`,
  `HealthDriver`, `UefiVariable`, `Flash`, `UpdateState`, `BootConfig`); buffers and page
  tables are arrays. Each method is proved against a function of the old state.
- Foreign services are inputs: allocated pages (fresh, page aligned, below 4 GiB), whether a
  UEFI variable store is accepted, how a block write ends (`WriteOutcome`), how the flash
  behaves (`Weather`). Which kernels load is an input of the selection (`Loader`);
  `BiosBoot.LoadKernelFile` computes it from the disk, on UEFI it stays an input.
- Where a proof does not depend on what a sector, a cluster visit or a loop invariant contains,
  it is passed around as a function value (`Look`, `Visitor`, `Finder`, `LoopInv`, `PageInv`,
  `Step`, `Aim`).
- The BIOS device claims 2^32 sectors; those behind the end of the medium are sectors that fail
  to read.
- The BIOS page tables are an array of their own; in the source they lie at 0x50000, below every
  address the kernel is loaded to.
- `Elf64.ScanTable` tests for overlap before it updates its accumulators, the source after; the
  accumulators are discarded when the test fails, so the result is the same.
- The `seen` bit set of the configuration parser is a set of fields, and text is a sequence of
  characters, one per byte.

Properties that turned out false of the code, with their exact condition:

- "A pending slot is entered at most 3 times without `mark_good`" fails when the candidate is
  the previous slot, the last good slot is current and a previous kernel path is configured:
  the roll back goes to current, and when current does not load the fallback leads back to the
  candidate, at every boot (`Trials.Unbounded`; from the default record,
  `Trials.DefaultIsUnbounded`). It holds in all other configurations (`Trials.BoundedIff`).
- "The pending firmware slot holds the verified image" can be lost by staging again while an
  image is pending: a call that passes the checks and then fails in the flash has already
  touched that slot, and the damaged image can be activated
  (`FirmwareRuns.DamagedImageActivated`; from the initial state, `FirmwareRuns.DamagedRun`). After a failing call the slot still holds the image
  exactly when the call is refused before the flash is touched
  (`FirmwareRuns.RestagingIsHarmless`).
- "The BIOS loader puts each segment in place" fails when a segment is copied upwards onto its
  own source in the staging buffer, or when segments placed before have overwritten its header
  or its bytes there; `Witness.BiosLoadsWrong` is such an image. Every round puts its own
  segment in place if and only if all segments are ready, a condition on the image alone
  (`BiosLoader.LoadedIff`): the header found in the staging buffer, as the segments before leave
  it, has the right target, and each of its bytes can be read there, or repeats one delivered
  before.
- "A persisted record is what the next load picks" fails at generation 2^64-1, where the
  counter wraps, and only there (`HealthStore.CompletedWrite`).
- "A write cannot lose the newest record" holds exactly for writes to the other sector, or when
  the other copy already repeats the record (`HealthStore.SafeWrites`). `healthctl attempt` on a
  record that is not pending is outside that condition (`HealthStore.RewriteInPlace`).
- "The kernel's addresses translate to their copy offsets" holds exactly when `virtual_min` is
  page aligned (`UefiTables.KernelTranslationExact`). "The kernel sees its own bytes" holds at an
  address exactly when the byte `virtual_min % 4096` further up is inside the pages and the same
  (`UefiLoader.VirtualImage`). `Witness.UefiLoadsWrong` is an accepted image where both fail.

## Model

| member | source | states |
|---|---|---|
| `Bits.PowerOfTwoTest` | boot/elf64.c:49-51 | `x & (x - 1) == 0` on nonzero x holds exactly for powers of two |
| `Crc32.AbsorbByte` | boot/core/health.c:10-14 | the eight masked shift rounds are eight steps of the bit-serial register on the byte |
| `Crc32.ComputeCrc` | boot/core/health.c:7-17 | the nested loop computes the CRC of the whole buffer |
| `Crc32.UpdateCrc` | boot/core/partition.c:40-50 | the resumable form continues from a finished checksum |
| `Crc32.ResumedChecksum` | boot/core/partition.c:40-50 | continuing from the checksum of a prefix gives the checksum of the whole |
| `Crc32.MatchesRfc1952` | boot/core/health.c:7-17 | the bit-serial register equals the byte-at-a-time form of section 8 of RFC 1952, with entry n of the table being eight rounds on n |
| `CrcPolynomial.CrcMeaning` | boot/core/health.c:7-24 | a word is the checksum of a message if and only if its complement, bits reversed, is the remainder of the message polynomial (times x^32, 32 ones added in front) by x^32 + x^26 + x^23 + x^22 + x^16 + x^12 + x^11 + x^10 + x^8 + x^7 + x^5 + x^4 + x^2 + x + 1 |
| `CrcPolynomial.BitStepDivides` | boot/core/health.c:12-13 | one round of the inner loop is one step of that division |
| `Crc32.BurstDetected` | boot/core/health.c:7-24 | equal-length buffers that differ only inside a 4-byte window have different CRCs, at any length |
| `Crc32.ResidueIsConstant` | boot/core/health.c:19-24 | a message followed by its own checksum always leaves the same register |
| `Runtime32.UDivMod64` | boot/runtime32.c:29-53 | numerator = quotient * denominator + remainder with remainder < denominator for all 64-bit inputs; zero denominator gives zeros |
| `Runtime32.BringDown` | boot/runtime32.c:40-46 | one round subtracts exactly when the denominator fits, also when the left shift overflows 64 bits |
| `Elf64.HeaderErrorMeaning` | boot/elf64.c:53-107 | the header passes exactly when it is an ELF64 little-endian x86-64 executable whose program header table lies inside the image |
| `Elf64.SegmentErrorMeaning` | boot/elf64.c:119-138 | a load segment passes exactly when sizes, file range, address range and alignment are consistent |
| `Elf64.VerdictMeaning` | boot/elf64.c:140-192 | accepted exactly when well formed: all load segments valid, non-empty ones pairwise disjoint, entry in an executable one; bounds are the exact minimum and maximum |
| `ElfFormat.ImageReads` | boot/elf64.c:53-107 | from an executable written field by field in the order of the ELF64 format the validator reads the entry point and the program headers that were written |
| `Elf64.Validate` | boot/elf64.c:140-192 | the validating loops compute that verdict, summary and error included |
| `Elf64.ScanTable` | boot/elf64.c:151-185 | the accumulator loop over the program headers computes the declarative table verdict |
| `Elf64.LoadSegment` | boot/elf64.c:194-225 | enumeration yields the i-th non-empty load segment, or the first segment error on the way |
| `Elf64.EnumerationAgrees` | boot/elf64.c:194-225 | after validation, enumeration succeeds exactly below `load_segment_count` |
| `Elf64.NthSegment` | boot/elf64.c:194-225 | on a valid image the i-th lookup is the i-th load segment |
| `Elf64.ValidIsLoadable` | boot/elf64.c:156-191 | segments of a valid image are disjoint, inside the file and inside the reported bounds, so per-segment guards cannot fire |
| `Elf64.EntryIsExecutable` | boot/elf64.c:168-185 | the entry point of an accepted image lies in a load segment whose executable flag, bit 0, is set |
| `Elf64.EarlierSegmentsMiss` | boot/elf64.c:174-181 | no earlier segment covers an address of a later one |
| `Paging.FrameMask` | boot/uefi/main.c:221 | the address mask selects bits 12 to 51 |
| `Paging.SamePageByIndices` | boot/uefi/main.c:223 | two addresses lie in the same page exactly when all four table indices agree |
| `Paging.LinkKeepsTree` | boot/uefi/main.c:224-226 | linking a fresh zeroed table keeps the tables a tree: no table aliases another |
| `Paging.LinkKeepsWalk4` | boot/uefi/main.c:224-226 | linking a fresh zeroed table changes no translation |
| `Paging.ReachUnique` | boot/uefi/main.c:222-228 | a leaf table is reached by one index path only |
| `Paging.TranslatedIsWritable` | boot/uefi/main.c:224-227 | every address that the tables translate is writable at every level of its walk |
| `UefiPaging.PagePool.Alloc` | boot/uefi/main.c:220 | hands out the next zeroed pool page, or fails exactly when the pool is used up |
| `UefiPaging.PagePool.Descend` | boot/uefi/main.c:224-226 | follows or creates the next table; translations stay the same; fails exactly on a huge entry or an empty pool |
| `UefiPaging.LeafTranslates` | boot/uefi/main.c:227 | the leaf write redirects the page of v and no other address |
| `UefiPaging.PagePool.Map4K` | boot/uefi/main.c:222-228 | a one-page update of the translation map; succeeds exactly when no huge entry is met and the missing tables fit; uses exactly that many |
| `UefiTables.BuildIdentity` | boot/uefi/main.c:231-234 | the first six tables map every address below 4 GiB to itself and nothing else |
| `UefiTables.BudgetBound` | boot/uefi/main.c:15 | a span of at most 64 MiB never needs more than 42 of the 48 pool pages |
| `UefiTables.MapKernel` | boot/uefi/main.c:235 | the kernel loop never fails on an accepted span and extends the translation page by page |
| `UefiTables.BuildTables` | boot/uefi/main.c:230-237 | fails only when an allocation fails; otherwise the walk of every address is the intended translation, writable wherever translated, at most 42 tables used |
| `UefiTables.KernelTranslationExact` | boot/uefi/main.c:235 | every v of the kernel span goes to kp + (v - virtual_min) if and only if `virtual_min` is page aligned |
| `UefiLoader.LoadElf` | boot/uefi/main.c:190-197 | fails only where listed; the pages then hold the segments with zeros in every gap |
| `UefiLoader.VirtualImage` | boot/uefi/main.c:190-237 | read through the built tables, an address of the span shows the image byte, zero in gaps, if and only if the byte `virtual_min % 4096` further up lies inside the pages and is the same |
| `UefiLoader.PrepareKernel` | boot/uefi/main.c:190-237 | loading, then building tables, end to end: exact success, and the exact set of addresses at which the walk composed with memory shows the ELF image; on an aligned image that is all of them |
| `Witness.UefiLoadsWrong` | boot/uefi/main.c:190-197 | an image the UEFI loader accepts with `virtual_min` not page aligned, whose first byte the kernel does not see |
| `BiosTables.BuildPageTables` | boot/stage2_pm.c:532-569 | the walk of every 64-bit address is the identity below 4 GiB, the kernel window at its virtual base, and a fault elsewhere; everything translated is writable |
| `BiosLoader.LoadElf` | boot/stage2_pm.c:571-625 | for every image: nothing is touched unless the staged image is valid with an acceptable summary; then memory and success are those of rounds that parse the staging buffer again after each placement, overlapping copies included |
| `BiosLoader.CopyDelivers` | boot/stage2_pm.c:147-151 | the ascending copy leaves given bytes at its destination exactly when each of them is the source byte or, where the copy has run upwards into its own output, repeats the one delivered that distance before |
| `BiosLoader.PlacedIff` | boot/stage2_pm.c:588-621 | out of a staging buffer in any state, a round puts segment p in place, zero tail included, and changes nothing else, exactly when each byte is good |
| `BiosLoader.LoadedIff` | boot/stage2_pm.c:588-621 | every round of loading an accepted image puts its own segment in place if and only if all segments are ready, and then memory ends as the segments laid over its old contents; as long as the rounds find headers with the right target, memory ends so only then |
| `BiosLoader.SingleSegment` | boot/stage2_pm.c:588-621 | an accepted image of one segment is always loaded, and memory ends as that segment laid over its old contents exactly when each of its bytes is good |
| `BiosLoader.LoadedIntactIff` | boot/stage2_pm.c:588-621 | all segments are in place and the staged copy is intact if and only if whatever the segments place on the staging buffer is what the image has there |
| `BiosLoader.VirtualImage` | boot/stage2_pm.c:532-625 | read through the BIOS tables, every byte of every segment is the file byte, or zero past its file size |
| `BiosLoader.PrepareKernel` | boot/stage2_pm.c:532-625 | loading and page tables composed: success only on accepted images and on all whose segments are ready, every segment byte then readable at its virtual address; the translation of every address in any case |
| `Witness.BiosLoadsWrong` | boot/stage2_pm.c:571-625 | an accepted image that the BIOS loader reports as loaded although its segment is not in place |
| `Witness.Counterexample` | boot/stage2_pm.c:571-625 | such an image exists, staged in memory, and serves for both loaders |
| `Block.ReadBounced` | boot/stage2_pm.c:153-184 | chunked reads through the bounce buffer equal one transfer and fail exactly when it would |
| `Partition.RunCrc` | boot/core/partition.c:97-105 | the sector-by-sector CRC equals the one-shot CRC of the first bytes of the run |
| `Partition.EntryInSector` | boot/core/partition.c:108-113 | entry i lies wholly in one sector, at byte i * entry_size of the array |
| `Partition.FindEntry` | boot/core/partition.c:108-128 | the entry loop finds what the first used entry of the whole array says |
| `Partition.ParseGpt` | boot/core/partition.c:57-129 | the parser equals its verdict on the entry array taken as one byte string |
| `Partition.GptFirstUsed` | boot/core/partition.c:57-129 | an accepted GPT has the signature, the right place and a matching header CRC; its partition is the first non-empty entry of a table with matching CRC, inside usable range and device |
| `Partition.FindBoot` | boot/core/partition.c:131-169 | the MBR scan, with its GPT branch and every error |
| `Partition.ChoiceMeaning` | boot/core/partition.c:143-168 | an entry is chosen exactly when it is the first active one, or the first used one when none is active, and all entries looked at are clean |
| `DiskFormats.MbrReads` | boot/core/partition.c:143-148 | the four entries of a master boot record written in the standard layout are read as written |
| `DiskFormats.BootEntryIsFound` | boot/core/partition.c:131-169 | on a disk with such a record the boot partition is the first active entry, or without one the first in use, with its type, first sector and count |
| `DiskFormats.UnsignedIsRefused` | boot/core/partition.c:131-142 | a boot partition is found only behind a readable sector 0 with the signature |
| `DiskFormats.ProtectiveIsGpt` | boot/core/partition.c:152-154 | an entry of type 0xEE with no active entry before it sends the search to the GPT |
| `DiskFormats.GptReads` | boot/core/partition.c:57-82 | a GPT header written in the order of the UEFI specification is read as written |
| `DiskFormats.GptHeaderAccepted` | boot/core/partition.c:57-95 | and passes the header checks when its CRC is that of the header with a zero CRC field |
| `DiskFormats.GptEntryReads` | boot/core/partition.c:114-128 | an entry written as type, unique GUID, first and last sector is the partition from first to last |
| `Partition.OverlapMeaning` | boot/core/partition.c:171-178 | for ranges inside the address space the test is true exactly when they share a sector |
| `Partition.RangeIsUnallocated` | boot/core/partition.c:180-222 | accepts exactly the ranges clear of sector 0 and of every used MBR entry, on a clean non-GPT table |
| `Partition.UnallocatedIsClear` | boot/core/partition.c:180-222 | an accepted range is disjoint from the boot partition, which is then an MBR partition inside the device |
| `Chains.EndingIsShort` | boot/core/fat32.c:118 | a successor path that ends is injective and no longer than the interval of its points |
| `Fat32.MountLayout` | boot/core/fat32.c:154-205 | a mounted volume has FATs and clusters one after the other inside the partition, and `clusters + 2` cannot overflow |
| `DiskFormats.BpbReads` | boot/core/fat32.c:154-185 | the parameter block of a boot sector written in the order of the FAT specification is read as written |
| `Fat32Table.MountMeaning` | boot/core/fat32.c:154-205 | mounting accepts exactly the FAT32 volumes that fit, and places FAT, data area and cluster count where the specification computes them |
| `Fat32Table.MountedIff` | boot/core/fat32.c:154-205 | a partition is mounted exactly when it lies on the disk, its boot sector is readable and signed, and its parameter block describes a good volume |
| `Fat32.ClusterPlace` | boot/core/fat32.c:37-49 | every valid cluster lies inside the partition, behind the FAT |
| `Fat32.ClustersDisjoint` | boot/core/fat32.c:41-49 | distinct clusters share no sector |
| `Fat32Table.ClustersTile` | boot/core/fat32.c:41-49 | cluster 2 is the first of the data area, and each next cluster follows the one before |
| `Fat32.MaskIsRemainder` | boot/core/fat32.c:63 | the cluster mask keeps the low 28 bits |
| `Fat32Table.NextIsWord` | boot/core/fat32.c:51-67 | the successor of a cluster is its word of the FAT taken as one array, with an error exactly when there is no such word, its sector is unreadable, or it is free, reserved or bad |
| `Fat32Table.ChainMeaning` | boot/core/fat32.c:51-67 | a list of clusters is a chain of the reader that ends if and only if the words of the FAT link it up to an end mark |
| `Fat32.TerminatingIsShort` | boot/core/fat32.c:51-67 | a chain that reaches end-of-chain has at most `cluster_count` clusters (pigeonhole) |
| `Fat32Read.CopyRun` | boot/core/fat32.c:282-292 | the sector loop copies exactly the requested slice of a cluster, or meets an unreadable sector |
| `Fat32Read.SkipClusters` | boot/core/fat32.c:264-269 | the skip loop reaches cluster n of the chain, or the chain does not get that far |
| `Fat32Read.ReadRound` | boot/core/fat32.c:276-301 | one round of the cluster loop delivers, fails for a reason, or moves one cluster on |
| `Fat32Read.ReadFile` | boot/core/fat32.c:243-305 | succeeds exactly when the request, cut to the end of the file, can be served; output byte i is then byte offset + i of the concatenated chain, and the rest of the buffer is untouched; a failure reports the status of the first obstacle on the way, corrupt for the chain and I/O error for an unreadable data sector |
| `Fat32Table.FileByte` | boot/core/fat32.c:243-305 | byte k of the i-th cluster of a linked list is byte i * cluster size + k of its file, in the sector the specification computes |
| `Fat32Read.GuardNeverFires` | boot/core/fat32.c:276-277 | on a chain that ends the visited guard never fires: a request gets through exactly when the chain has enough clusters |
| `Fat32Read.ReadsCompose` | boot/core/fat32.c:243-305 | reading [a, c) succeeds exactly when [a, b) and [b, c) do, and yields the two pieces in order |
| `Fat32Dir.ScanEntries` | boot/core/fat32.c:127-142 | the entry loop over a sector equals the declarative scan of its 16 entries |
| `Fat32Dir.ScanMeaning` | boot/core/fat32.c:123-143 | a scan is decided by the first entry that is unreadable, the terminator or the named file, all before it being passed over |
| `DiskFormats.DirEntryReads` | boot/core/fat32.c:127-142 | a directory entry written in the order of the FAT specification is read as written |
| `DiskFormats.LiveEntryFound` | boot/core/fat32.c:127-142 | a live entry of the name is found with the file it describes |
| `DiskFormats.OtherEntriesPassed` | boot/core/fat32.c:127-136 | deleted entries, long-name parts, volume labels and other names are passed over, and a zero ends the directory |
| `Fat32Dir.FindInDirectory` | boot/core/fat32.c:111-152 | the nested loops with their cycle guard compute the search along the chain |
| `Fat32Dir.SearchIsLinear` | boot/core/fat32.c:111-152 | on a directory whose chain ends, the guard never fires and the result is a linear scan of all its entries |
| `Fat32Dir.SearchDecided` | boot/core/fat32.c:111-152 | on any chain the search ends, with the answer of a visited cluster or with an error |
| `Fat32Dir.AnswersAreDecided` | boot/core/fat32.c:111-152 | a hit or a miss is reported only because of a decisive entry or an end-of-chain mark within the guard |
| `Fat32Path.ShortNameFromSegment` | boot/core/fat32.c:87-109 | the loops build the padded upper-case 8.3 name, refusing everything else |
| `Fat32Path.ShortNameForm` | boot/core/fat32.c:87-109 | byte by byte: base name in the first eight bytes, extension in the last three, upper case, padded with spaces |
| `Fat32Path.PunctuationMeaning` | boot/core/fat32.c:69-76 | the punctuation a short name may have is exactly the listed characters |
| `Fat32Path.SameEntry` | boot/core/fat32.c:69-109 | two segments name the same directory entry exactly when they agree up to case and a trailing dot |
| `Fat32Path.SlashSeparates` | boot/core/fat32.c:211-240 | the components of p/q are those of p followed by those of q; repeated slashes mean nothing |
| `Fat32Path.ComponentsOfJoin` | boot/core/fat32.c:211-240 | non-empty segments without slashes, joined by slashes, split into themselves |
| `Fat32Path.OpenPath` | boot/core/fat32.c:207-241 | the walk along the path resolves the components of the path one after the other from the root |
| `Fat32Path.OpenComposes` | boot/core/fat32.c:207-241 | opening p/q is opening p and resolving q from it, with the directory and cluster checks in between |
| `Fat32Path.ResolveMeaning` | boot/core/fat32.c:207-241 | a path resolves to a file exactly when each component is found in the directory before it, all but the last being directories with a valid cluster |
| `KernelFile.ReadKernelCandidate` | boot/stage2_pm.c:364-401 | succeeds exactly when the path names a non-empty, small enough, readable file that is a valid image, and the buffer then starts with that file |
| `KernelFile.KernelMeaning` | boot/stage2_pm.c:364-401 | a kernel is the whole content of a file of 1 byte to 4 MiB that is a well-formed image |
| `KernelFile.HealthWritesKeepKernels` | boot/stage2_pm.c:418-466 | changing the health sectors of an accepted layout changes neither the mount nor any kernel |
| `Isolation.SameOpen` | boot/core/fat32.c:207-241 | path lookup depends only on sectors of the mounted partition |
| `Isolation.SameBytes` | boot/core/fat32.c:243-305 | so does success and result of every read |
| `Isolation.WritesAreInvisible` | boot/core/partition.c:180-222 | writes to a range the layout test accepted change no partition choice, no mount, no path lookup and no read |
| `Health.DecodeEncode` | boot/core/health.h:33-47 | a record written to the start of a sector is read back unchanged |
| `Health.RecordLayout` | boot/core/health.h:33-47 | the byte offset of every field of the packed structure |
| `Health.ValidBytes` | boot/core/health.c:42-54 | which bytes of a sector are a valid record, field by field at their offsets, with the CRC of the first 52 bytes at byte 52 |
| `Health.WordChangeInvalidates` | boot/core/health.c:42-54 | changing any one 32-bit word of a valid record, its checksum included, makes it invalid |
| `Health.BurstInvalidates` | boot/core/health.c:42-54 | no two valid records differ only inside four consecutive bytes |
| `Health.OperationsAdvance` | boot/core/health.c:74-164 | every operation yields a valid record one generation on; the last good slot changes only in `mark_good` |
| `Health.HealthRecord.IsValid` | boot/core/health.c:42-54 | the field checks and the checksum comparison |
| `Health.HealthRecord.SetDefault` | boot/core/health.c:30-40 | the sealed default record |
| `Health.HealthRecord.BeginUpdate` | boot/core/health.c:74-90 | whole new record of a begun update, or refusal |
| `Health.HealthRecord.PrepareAttempt` | boot/core/health.c:92-116 | whole new record and slot: one more attempt, or roll back when they are used up |
| `Health.HealthRecord.MarkGood` | boot/core/health.c:118-133 | whole new record with the slot selected and last good |
| `Health.HealthRecord.NoteFailure` | boot/core/health.c:135-146 | whole new record with the failure stage |
| `Health.HealthRecord.SelectFallback` | boot/core/health.c:148-164 | whole new record with the fallback slot selected and nothing pending |
| `HealthStore.ImageHoldsRecord` | boot/stage2_pm.c:295-296 | the sector written for a valid record reads back as that record |
| `HealthStore.WriteKeepsPlaced` | boot/stage2_pm.c:333-336 | writing the successor of the newest record, torn or not, leaves the old or the new record newest, in the sector of its parity |
| `HealthStore.SafeWrites` | boot/stage2_pm.c:333-336 | exactly which writes cannot lose both the newest and the written record |
| `HealthStore.CompletedWrite` | boot/core/health.c:56-72 | a completed write is what the next load picks exactly when the generation did not wrap |
| `HealthStore.SecondWriteCanLoseBoth` | boot/stage2_pm.c:336-339 | from every state, going on after a failed write can leave no valid copy: disabling writes is necessary |
| `HealthStore.RewriteInPlace` | tools/josh-healthctl.c:102-106 | `attempt` on a record that is not pending rewrites the newest copy in its own sector |
| `HealthStore.HealthDriver.ReadCopy` | boot/stage2_pm.c:282-289 | the valid record in a sector, if any |
| `HealthStore.HealthDriver.WriteCopy` | boot/stage2_pm.c:291-303 | only sector 1984, or 1985 for an odd generation, changes; success means a copy of that generation was read back, and a completed write succeeds |
| `HealthStore.HealthDriver.Load` | boot/stage2_pm.c:305-325 | the newest valid copy with writes enabled, or the default record without: the power-on step of the run |
| `HealthStore.HealthDriver.Persist` | boot/stage2_pm.c:327-343 | however the write ends, disk and memory stay in step and the next load picks the old or the new record; reported success means the new one; the call is a persist step of the run |
| `HealthStore.StepIsSafe` | boot/stage2_pm.c:305-343 | every boot, crash, torn write or tool step keeps the invariant; the next load yields the old record or the one being written |
| `HealthStore.RunIsSafe` | boot/stage2_pm.c:305-343 | over every run from both copies at generation 0, the newest valid copy sits in the sector of its own parity |
| `HealthStore.NothingIsInvented` | boot/core/health.c:56-72 | the surviving record is the initial one or one the run wrote |
| `HealthStore.LastGoodIsStable` | boot/core/health.c:118-133 | without a mark-good step the last good slot never changes over a run, and generations never go back |
| `HealthHistory.RightAfterMark` | boot/core/health.c:118-133 | right after a surviving mark-good the slot is selected and last good, with nothing pending |
| `HealthHistory.LastGoodIsLastMark` | boot/core/health.c:118-133 | over every run the last good slot of the surviving record is the slot of the latest mark-good that survived, or current if none did |
| `HealthHistory.RightAfterPending` | boot/core/health.c:74-90 | right after a surviving begin-update the slot is selected and pending with no attempt made |
| `HealthHistory.UpdateGenerationCounts` | boot/core/health.c:74-90 | over every run the update generation counts the updates made pending that survived |
| `HealthHistory.GenerationCounts` | boot/core/health.c:56-164 | over every run the generation counts the writes that survived |
| `HealthHistory.InvalidGoesToRecovery` | boot/core/health.c:92-100 | an invalid record is left alone and answered with recovery |
| `HealthHistory.NotingStores` | boot/core/health.c:135-146 | noting a failure stores its stage and changes nothing that a boot decides by |
| `BootSlots.SelectTries` | boot/stage2_pm.c:487-526 | the loop tries a prefix of the current-previous-recovery chain, no slot twice, and stops at the first that loads |
| `BootSlots.ChainMeaning` | boot/stage2_pm.c:497-523 | the slots tried are the first one and every later one that has a path, in ascending order |
| `BootSlots.SelectRecords` | boot/stage2_pm.c:497-523 | the record is left selecting the last slot tried |
| `BootSlots.BootMeaning` | boot/stage2_pm.c:475-529 | a boot succeeds exactly when some slot of the chain from the prepared slot loads, and `selected_slot` is then the slot loaded |
| `BiosBoot.HealthWritesAreStable` | boot/stage2_pm.c:418-466 | whatever health writes an accepted layout admits, the mounted volume keeps showing the same kernel, or none, at every slot path |
| `BiosBoot.ReadConfig` | boot/stage2_pm.c:431-460 | the configuration is what the parser makes of the bytes of its file, or none |
| `BiosBoot.SlotIsConfigured` | boot/stage2_pm.c:345-352 | the kernel of slot 0, 1 or 2 is the one at the path that the line `kernel`, `previous_kernel` or `recovery_kernel` of /boot/josh/boot.cfg names |
| `BiosBoot.KernelLoop` | boot/stage2_pm.c:487-526 | reading each candidate from the disk as the health writes before have left it, the loop makes the selection the first disk determines; the buffer starts with the kernel of the loaded slot; the copies stay placed and no other sector is written |
| `BiosBoot.LoadKernelFile` | boot/stage2_pm.c:403-530 | the whole function: fails without a volume or configuration and then writes nothing; otherwise selection, record and kernel bytes are those determined by the disk at power on, volatile when the layout test refuses; what is loaded is the kernel that the line of its slot in the configuration names; when writes complete, the record left on disk is the one the selection leaves |
| `BootRuns.NextStart` | boot/stage2_pm.c:403-530 | a record left in the health sectors is the one the next boot from that disk starts from, with the same volume and configuration |
| `BootRuns.BootOnce` | boot/stage2_pm.c:403-530 | on a reliable disk with an accepted layout the next boot continues from the record this one left |
| `BootRuns.PendingIsBounded` | boot/stage2_pm.c:475-529 | over every run of boots from disk, kernels exchanged in between or not, a slot made pending is loaded at most 3 times outside the re-entrant configuration |
| `BootSlots.UefiLoop` | boot/uefi/main.c:147-183 | the UEFI loop makes the same selection from the same record and load outcomes |
| `BootSlots.UefiBoot` | boot/uefi/main.c:134-188 | the whole UEFI boot; the variable follows the record while stores are accepted |
| `BootSlots.UefiVariable.Load` | boot/uefi/main.c:94-110 | the stored record if valid, otherwise the default record, stored again |
| `Trials.TrialIsBounded` | boot/core/health.c:92-116 | outside one configuration a pending slot is entered at most 3 times over any number of boots, load outcomes and resets |
| `Trials.BootsAreBounded` | boot/stage2_pm.c:475-529 | outside that configuration no sequence of boots, with any kernels loading at each, loads the pending slot more than 3 times |
| `Trials.ThenRolledBack` | boot/core/health.c:101-109 | after three entries the next boot goes to the last good slot, or to recovery if that is the slot itself |
| `Trials.ThreeTries` | boot/core/health.c:92-116 | a slot made pending whose kernel loads is tried exactly three times; the fourth boot starts with the last good slot, or with recovery if that is the slot itself |
| `Trials.RolledBackToMarked` | boot/core/health.c:92-133 | after a slot was marked good, a pending slot that used up its attempts is rolled back to that slot |
| `Trials.BootLeavesReason` | boot/core/health.c:92-164 | the failure stage a boot leaves: kernel file after a fallback, kernel after a roll back, otherwise unchanged |
| `Trials.Unbounded` | boot/stage2_pm.c:497-510 | in that configuration, when only the previous kernel loads, every one of n boots loads the pending slot |
| `Trials.DefaultIsUnbounded` | boot/stage2_pm.c:497-510 | a concrete start, the default record with the previous slot made pending: n boots that load it n times |
| `Trials.BoundedIff` | boot/core/health.c:92-116 | the bound of 3 holds for all sequences of boots if and only if the configuration is not that one |
| `Trials.BootIsTrial` | boot/stage2_pm.c:475-529 | every boot of either loader is a run of the trial system |
| `Firmware.NameOfMeaning` | firmware/update.c:46-55 | a board identifier is proper exactly when 1 to 31 printable characters are followed by a zero |
| `Firmware.ManifestValid` | firmware/update.c:38-56 | the manifest check |
| `Firmware.TextEqual` | firmware/update.c:5-12 | on a valid manifest the comparison holds exactly when the identifier is the expected string |
| `Firmware.VerifySlot` | firmware/update.c:110-126 | the chunked read back succeeds exactly when every chunk can be read and the slot starts with the image |
| `Firmware.TargetIsOther` | firmware/update.c:99-100 | the target is the next slot modulo the slot count, never the active one |
| `Firmware.StageUpdate` | firmware/update.c:70-133 | exact status under any erase, write and read behaviour; only the target slot changes; the state changes only on success |
| `FirmwareRuns.AcceptedIff` | firmware/update.c:82-97 | the checks pass exactly for a non-empty image that fits and matches its CRC, under a proper manifest for this board that is newer than the active firmware or allowed to be older |
| `FirmwareRuns.ForeignIsRefused` | firmware/update.c:82-88 | an update for another board, or with a manifest of another kind, never returns staged and changes neither flash nor state |
| `Firmware.UpdateState.SelectBootSlot` | firmware/update.c:135-152 | whole new state and answer of a selection |
| `Firmware.UpdateState.MarkBootGood` | firmware/update.c:154-166 | whole new state of an activation, or refusal |
| `FirmwareRuns.StepIsSafe` | firmware/update.c:70-166 | every step keeps pending apart from active and never touches the active slot; a failed staging call leaves the state unchanged |
| `FirmwareRuns.RunIsSafe` | firmware/update.c:70-166 | over every run pending stays apart from active and the attempt counter counts the selections of the staged image; with nothing pending, counter and pending generation are zero |
| `FirmwareRuns.SelectionsAreBounded` | firmware/update.c:135-152 | each selection having its own `max_attempts`, a staged image is selected at most as often as the largest of them, over every run |
| `FirmwareRuns.SelectionIsExact` | firmware/update.c:135-152 | the pending slot is answered exactly while fewer selections of it were made than the call allows, three by default |
| `FirmwareRuns.UsedUp` | firmware/update.c:143-148 | a selection that allows no more attempts than were made returns to the active slot, and nothing is pending |
| `FirmwareRuns.PreviousIsFormer` | firmware/update.c:128-166 | over every run previous_good_slot is the slot active before the latest activation, or the active slot when an update was staged since |
| `FirmwareRuns.ActivationIsExact` | firmware/update.c:154-166 | marking the pending slot makes it active with nothing pending; any other mark changes nothing |
| `FirmwareRuns.StepKeepsVerified` | firmware/update.c:99-166 | a staging call with nothing pending, refused before the flash is touched, or successful keeps pending and active images verified, as do the other calls; activation makes the verified pending image active |
| `FirmwareRuns.OnlyVerifiedImages` | firmware/update.c:70-166 | in a run of such calls, what is pending or active is a non-empty checksummed image for this board, held byte for byte, with its generation |
| `FirmwareRuns.RestagingIsHarmless` | firmware/update.c:99-108 | after a failing staging call the pending slot still holds its verified image, however the flash behaves, if and only if the call is refused before the flash is touched |
| `FirmwareRuns.DamagedImageActivated` | firmware/update.c:99-166 | otherwise a failed staging call followed by `mark_boot_good` ends with an active slot that does not hold the image it was verified for |
| `FirmwareRuns.DamagedRun` | firmware/update.c:70-166 | from the initial state, for every request accepted there: stage it, fail to stage it again, mark it good, and the active slot does not hold the image |
| `FirmwareRuns.SomeRequest` | firmware/update.c:70-97 | every flash with room for a byte accepts some request in its initial state |
| `FirmwareRuns.GenerationsIncrease` | firmware/update.c:89-91 | without rollback `active_generation` never decreases over a run and strictly increases across each activation |
| `Config.ParseU32` | boot/core/config.c:85-96 | accepts exactly the non-empty digit strings of value below 2^32, with that value |
| `Config.OverflowTest` | boot/core/config.c:91 | the division test is true exactly when the next digit would overflow 32 bits |
| `Config.FlagsMeaning` | boot/core/config.c:103-122 | the token loop accepts exactly the two tokens, each at most once, in either order |
| `Config.ParseFlags` | boot/core/config.c:98-124 | exact value of every accepted flag text, refusal of all others |
| `Config.BootConfig.ApplyField` | boot/core/config.c:215-249 | whole new structure after one field, or its exact error |
| `ConfigText.SetField` | boot/core/config.c:251-267 | unknown, unsupported and duplicate keys, then the field |
| `ConfigText.Parse` | boot/core/config.c:269-320 | the index-walking parser equals the line-by-line reference, errors included |
| `ConfigText.ParsedMeaning` | boot/core/config.c:269-320 | a text of acceptable size parses to c exactly when its multiset of settings describes c |
| `ConfigKeys.KernelPaths` | boot/core/config.c:215-267 | the three kernel paths are the right-hand sides of the lines `kernel`, `previous_kernel` and `recovery_kernel`, the last two empty without a line |
| `ConfigKeys.OtherTexts` | boot/core/config.c:215-267 | so are the texts of `default`, `entry`, `name` and `cmdline` |
| `ConfigKeys.Numbers` | boot/core/config.c:215-249 | version is 1, and timeout is the decimal number of its line, at most 30 |
| `ConfigKeys.FlagsField` | boot/core/config.c:98-124 | flags are 1 for recovery, 2 for development, 3 for both, as their line lists them |
| `ConfigKeys.PathTexts` | boot/core/config.c:215-249 | a path is accepted exactly with 2 to 95 graphic characters other than the backslash, starting with a slash |
| `ConfigKeys.IdTexts` | boot/core/config.c:215-249 | an entry identifier is accepted exactly with 1 to 15 letters, digits, hyphens and underscores |
| `ConfigKeys.PrintableTexts` | boot/core/config.c:215-249 | a name is accepted exactly with 1 to 31, a command line with up to 127 printable characters |
| `ConfigKeys.NumberTexts` | boot/core/config.c:85-96 | a version is accepted exactly as the number 1, a timeout as a number up to 30 |
| `ConfigKeys.FlagTexts` | boot/core/config.c:98-124 | exactly the listed flag texts are accepted, with their values |
| `ConfigKeys.LineErrors` | boot/core/config.c:251-304 | which error a line raises: syntax, unsupported or unknown key, duplicate, unsupported version, invalid value |
| `ConfigKeys.FirstErrorDecides` | boot/core/config.c:281-304 | the first line that raises an error decides the status, whatever follows |
| `ConfigText.LayoutIsIrrelevant` | boot/core/config.c:281-304 | two texts with the same settings parse to the same structure |
| `ConfigText.LineOrderIsIrrelevant` | boot/core/config.c:281-304 | any reordering of the lines of an accepted text is accepted with the same structure |
| `ConfigLayout.SettingsAdd` | boot/core/config.c:281-304 | joining texts adds their settings, in either order |
| `ConfigLayout.SettingsIgnored` | boot/core/config.c:288-289 | blank lines and comments add nothing |
| `ConfigLayout.LineEndsAreIrrelevant` | boot/core/config.c:283-286 | CRLF and LF line ends give the same settings |
| `ConfigLayout.RoundTrip` | boot/core/config.c:269-320 | rendering any valid structure and parsing the text returns it |
| `ConfigLayout.ParsedIsValid` | boot/core/config.c:269-320 | the parser produces valid structures only |

## Left out

- BiosLoader.LoadedIff: rounds that parse a header with another target, written over the table by an earlier segment, and by chance still leave the right memory are not separated from those that do not; `LoadElf` states what memory becomes.
- BiosBoot.LoadKernelFile: selection and kernel bytes are stated for every disk and every write outcome; which record is stored afterwards only for copies placed as every run leaves them (`HealthStore.RunIsSafe`), a generation below 2^64-4 and torn sectors left old, new or invalid.
- BiosBoot.KernelLoop: likewise.
- UefiTables.BuildTables: is for the spans `load_elf` accepts, which is the only caller.
- HealthStore.HealthDriver.Persist: what survives is stated for a torn sector left old, new or invalid and a generation below 2^64-1.
- HealthStore.RunIsSafe: assumes the same; `healthctl attempt` and `healthctl init` are not steps of the run.
- Trials.TrialIsBounded: assumes that every persist succeeds; `BootRuns.BootOnce` and `BootSlots.UefiBoot` show that the record the boot leaves in memory is then the one the next boot loads.
- BootSlots.UefiBoot: a variable store either replaces the value or fails; a variable of the wrong size counts as absent.
- Assembly (mode switches, BIOS calls, the hand-off), serial output, VGA, VBE and GOP fields, RSDP and SMBIOS scans.
- UEFI protocol calls other than as inputs: `open_root`, `read_file`, `AllocatePages`, `ExitBootServices`, the memory map.
- The ASCII to UCS-2 path conversion of the UEFI loader, which is part of whether a kernel loads.
- The boot information structure and the kernel test payload.
- Null-pointer argument checks: inputs are present.
- Status-to-string functions and the byte loops of `memcpy`, `memset` and `memcmp` other than as sequence operations.
- The Python and shell checks under firmware/coreboot.
