# deepin-anything, modelled in Dafny

deepin-anything is a file-name search service for Linux. A kernel module hooks
file-system changes and hands them to user space. A server keeps an index of
every path on every partition. A library stores each partition's directory tree
in a Linear File Tree (LFT): one flat byte buffer that is searched by scanning
names. This project models the sequential, in-memory core of that system and
proves what its code promises.

- **LFT buffer** (`LftLayout`, `LftSpec`, `LftBuffer`, `LftRules`). The byte
  layout of names, file tags, directory tags and parent tags is modelled, with
  the relative offsets those tags encode. `FsBuf` is a class over the byte
  buffer. Its lookups, the subtree range and the name search are proved equal
  to reference walks. Insertion, removal and renaming of paths are proved equal
  to functions that spell out each write, with their error codes and change
  records.
  Beside them are the search rules and the jump list of a rule search.
- **Keyword index** (`IndexUtils`, `AllmemIndex`, `FsIndex`, `CompositeStr`,
  `CalcIndex`). These model the bucket hash, the sorted insert position and the
  offset shift. They also cover the in-memory hash table of keywords, the
  substrings `add_index` emits, the on-disk keyword record and the short-string
  cell, plus the script's closed-form keyword counts.
- **Kernel module** (`VfsChange`, `EventMerge`, `VfsSysfs`, `VfsPartition`,
  `KernelPaths`, `DevNumbers`). The older module's change queue is modelled
  with its merge rules, its memory bound and its byte stream. So is the newer
  module's event buffer, with rename pairing by cookie and batch picking. The
  rest are the unnamed-device flag table and its one-letter commands, the
  dev-to-path binary search tree, the mount-point predicates and the
  device-number packing.
- **Server event pipeline** (`ServerStream`, `EventSourceGenl`,
  `EventHandler`, `EventAdaptor`, `UnnamedSync`, `MountInfo`, `MountTable`,
  `Walkdir`). These model the stream decoders and their batchers, the netlink
  event source and the default event handler with rename pairing and root
  prefixes. They also model the adaptor's FIFO and its dlnfs ignore chain, the
  synchronisation of the kernel's unnamed-device set, and the mount tables built
  from `/proc/self/mountinfo`, including the walk from a path to its mount point.
- **Search front end** (`LftManager`, `QtNumber`, `LftDiskTool`). These cover
  the "0xNN<value>" rule strings with their defaults and parsing, and the path
  translation into an index buffer. They also cover the CPU guard, the dispatch
  of queued changes and the "serial:" URIs that name an index by partition.
- **Text utilities** (`StringHelper`, `FileRecord`, `Tools`, `Pinyin`,
  `AnythingTokenizer`, `AnythingFilter`, `Config`, `Primes`). These are the
  string helpers, date validation and file-record fields, file-type
  classification, pinyin conversion, the search tokenizer and its stop-word
  filter, the path blacklist, and the prime generator script.

Outside the code base, only oracles appear, each as a parameter:

- libmount's mount-point lookup, udisks' block devices and the `sscanf` scan of a
  mountinfo line;
- `stat`, `getenv`, `g_format_size` and iconv;
- the character classes of the tokenizer;
- whether an allocation or a file open succeeds.

C unsigned arithmetic is written out with explicit wrap-around, and C strings
are sequences without their terminating NUL.

## Model

| member | source | states |
|---|---|---|
| CalcIndex.Output | src/tools/calc_index.py:7-17 | the script prints 103 lines: the two headers, a rule of 80 `=` and one data row for each name length 1..100 |
| CalcIndex.IndexCount | src/tools/calc_index.py:12 | the `index_count` column never exceeds `i(i+1)/2`, the number of substrings of a name of length `i`, and is at least `i`, one keyword per character |
| CalcIndex.IndexCountIsKwCount | src/tools/calc_index.py:12 | the `index_count` column equals the number of keywords `add_index` emits for a name of that length |
| CalcIndex.IndexCountOfName | src/tools/calc_index.py:12 | for any name, the number of keyword windows taken from it is `index_count` of its length |
| CalcIndex.TriangleExact | src/tools/calc_index.py:12 | `i*(i+1)` is even, so the first branch's integer division drops nothing |
| CalcIndex.IndexCountExact | src/tools/calc_index.py:12 | both branches are exact: `i(i+1)/2` up to the cut, `mil(2i-mil+1)/2 = 4(2i-7)` past it |
| CalcIndex.Step | src/tools/calc_index.py:12 | past the cut each extra character adds `mil` keywords, and both branches give 36 at the cut |
| CalcIndex.SmallMemory | src/tools/calc_index.py:15-16 | up to the cut, `i(i+1)(i+3p+5)` is six times the bytes of the keywords (characters, NUL and pointer each) |
| CalcIndex.LargeMemory | src/tools/calc_index.py:15-16 | past the cut, the second branch's formula equals the bytes of the keywords |
| CalcIndex.MemFormulaIsKwBytes | src/tools/calc_index.py:15-16 | each memory formula equals the bytes of the keywords it estimates, and its division by 6 is exact |
| CalcIndex.MemColumns | src/tools/calc_index.py:15-16 | the p8 and p4 columns are the keyword bytes for 8- and 4-byte pointers; both branches give 444 and 300 at the cut |
| Primes.IsPrime | tools/primes.py:7-13 | the loop returns what the trial-division scan decides: `False` on a divisor, `True` when `p*p > n`, nothing when the list runs out |
| Primes.Next | tools/primes.py:15-17 | a candidate found lies at or after the start, an even step from it, and is accepted by `is_prime` |
| Primes.NextSkips | tools/primes.py:16-17 | every candidate skipped before the one found is rejected by `is_prime` |
| Primes.PrimeList.constructor | tools/primes.py:21 | the list starts as the eight primes 2..19 |
| Primes.PrimeList.AppendNextPrime | tools/primes.py:14-19 | the first accepted odd candidate after the last prime is appended, and nothing else changes |
| Primes.SeedIsPrimesUpTo | tools/primes.py:21 | the seed is exactly the primes up to 19, in order |
| Primes.SeedPrimes | tools/primes.py:21 | every seed element is prime |
| Primes.ScanExact | tools/primes.py:7-13 | for a number beyond the list's last prime and below its square, `is_prime` over a complete prime list answers primality exactly |
| Primes.ScanFrom | tools/primes.py:8-12 | the scan from any position, past primes that do not divide, answers primality exactly |
| Primes.TrialSound | tools/primes.py:8-12 | an accepted trial from `d` means no divisor of `n` in `d..n-1` |
| Primes.NextExact | tools/primes.py:14-19 | when the prime found lies below the square of the last one, it is prime, no prime is skipped, and the list stays the complete list of primes |
| Primes.NoPrimeBetween | tools/primes.py:15-17 | no prime lies strictly between the last prime and the one appended |
| Primes.SkippedNotPrime | tools/primes.py:16-17 | a candidate passed over (even ones by step, odd ones by the scan) is not prime |
| Primes.GrowStep | tools/primes.py:22-23 | one round of the driver keeps the list increasing, positive and exact (when the new prime lies below the square of the previous one) |
| Primes.Generate | tools/primes.py:21-25 | the driver stops with the last prime at or above 2^17 and the one before below it, and reports the list's length and last two elements; on an exact list those are the primes up to the end and the first one reported is 131071 |
| Primes.LargestBelowLimit | tools/primes.py:21-25 | on an exact list the first of the two primes printed is 131071 |
| Primes.Prime131071 | tools/primes.py:25 | 131071, 2^17 - 1, is prime |
| Primes.PrimeByTrial | tools/primes.py:8-12 | a number with no divisor from 2 up to a bound whose square reaches it is prime, the test `is_prime` stops at |
| Primes.NoDivisorSound | tools/primes.py:8-10 | an accepted bounded trial means no divisor in its range |
| Primes.StopsAtFirstPrimePastLimit | tools/primes.py:22-25 | on an exact list the reported pair is the largest prime below 2^17 and the first prime at or above it |
| Primes.SmallPrimeFactor | tools/primes.py:10-11 | a composite number has a prime factor whose square does not exceed it, which is why the `p*p > n` exit is sound |
| Walkdir.SpecialMountPoints | library/src/walkdir.c:42-46 | everything under /sys and /proc is special; under /dev and /run exactly when the filesystem is not tmpfs |
| Walkdir.StrCmp | library/src/walkdir.c:48-52 | the comparator's sign is in {-1, 0, 1} and it is 0 exactly for equal mount points |
| Walkdir.StrCmpFlip | library/src/walkdir.c:48-52 | swapping the arguments negates the comparison |
| Walkdir.StrCmpTrans | library/src/walkdir.c:48-52 | the comparison is transitive, so it is a total order `qsort` can use |
| Walkdir.PrefixSortsFirst | library/src/walkdir.c:48-52 | a mount point sorts before every path it is a prefix of |
| Walkdir.Collected | library/src/walkdir.c:62-75 | the collected partitions are no more than the lines, none is a special mount point, and each carries the device numbers `stat` gave for it |
| Walkdir.LineEntry | library/src/walkdir.c:63-74 | one line yields its partition unless it is special or `stat` fails |
| Walkdir.Collect | library/src/walkdir.c:62-75 | the read loop collects exactly the partitions of the mount table's lines, in order |
| Walkdir.Insert | library/src/walkdir.c:78 | inserting into the sorted prefix adds exactly one element |
| Walkdir.InsertSorted | library/src/walkdir.c:78 | insertion keeps the partitions ordered by mount point |
| Walkdir.SortParts | library/src/walkdir.c:78 | the sort is a permutation of its input |
| Walkdir.SortPartsSorted | library/src/walkdir.c:78 | the sort orders the partitions by `strcmp` of their mount points |
| Walkdir.GetPartitions | library/src/walkdir.c:54-80 | an unopened table returns 1 with no partitions; otherwise 0 and the collected partitions, sorted by mount point and a permutation of what was read |
| Walkdir.PathPartition | library/src/walkdir.c:82-88 | the result is -1 or the largest index whose mount point is a string prefix of the path |
| Walkdir.GetPathPartition | library/src/walkdir.c:82-88 | the backward loop returns that largest index, or -1 |
| Walkdir.LongestMountPoint | library/src/walkdir.c:82-88 | on sorted partitions the index found has the longest mount point among those that prefix the path |
| Walkdir.CharacterPrefix | library/src/walkdir.c:85 | the test is a character prefix, so "/home2/x" is placed on the partition mounted at "/home" |
| Walkdir.ShouldSkipPath | library/src/walkdir.c:90-103 | a path is skipped iff it is special for the selected partition's filesystem, or, without merging, a later partition's mount point prefixes it; that is, iff it belongs to a later partition |
| KernelPaths.MountedAtMeaning | kernelmod/vfs_partition.h:19-23 | `mounted_at(mp, root)` holds iff `mp` is `root` or `root + "/" + rest` for some rest; the copies at kernelmod/vfs_utils.c:68-71 and library/src/walkdir.c:37-40 mean the same |
| KernelPaths.SystemIsNotSys | kernelmod/vfs_partition.h:19-23 | "/system" is not mounted at "/sys" |
| KernelPaths.SubPath | kernelmod/vfs_partition.h:19-23 | every path below a root is mounted at it |
| KernelPaths.PassPartitionCases | kernelmod/vfs_partition.h:26-33 | "/" passes; paths under /sys, /run, /dev, /proc and paths not starting with '/' do not |
| KernelPaths.SpecialIsNotPassed | kernelmod/vfs_utils.c:73-81 | `is_special_mp` holds exactly for what `vfs_pass_partition` refuses plus paths under /data/uengine |
| KernelPaths.Parsed | kernelmod/vfs_utils.c:88-105 | the partitions parsed are no more than the lines, none is special, and each comes from a line with the same numbers and mount point |
| KernelPaths.ParsedOne | kernelmod/vfs_utils.c:93-104 | one line yields its partition unless its mount point is special |
| KernelPaths.StopsAtBadLine | kernelmod/vfs_utils.c:90 | parsing stops at the first line that does not give three fields |
| KernelPaths.ParsedAppend | kernelmod/vfs_utils.c:90-105 | lines are parsed in order, so well-formed lines followed by more lines give their partitions first |
| KernelPaths.ParseMountsInfo | kernelmod/vfs_utils.c:83-106 | a missing buffer adds nothing; otherwise the partitions kept are appended to the list in input order, which are exactly the parsed partitions when no `kmalloc` fails |
| KernelPaths.Kept | kernelmod/vfs_utils.c:90-105 | the partitions kept are no more than the lines, none is special, and each comes from a line with the same numbers and mount point whose `kmalloc` succeeded |
| KernelPaths.KeptAllAllocated | kernelmod/vfs_utils.c:96-104 | with no `kmalloc` failing, the partitions kept are the partitions parsed |
| KernelPaths.FailedLineLost | kernelmod/vfs_utils.c:96-100 | a line whose `kmalloc` fails adds nothing and the scan goes on with the next line |
| KernelPaths.KeptAdvance | kernelmod/vfs_utils.c:90-105 | one pass of the loop appends what its line keeps and leaves the rest of the lines to come |
| DevNumbers.MkdevRoundTrip | kernelmod/vfs_partition.c:43 | `MAJOR` and `MINOR` recover the parts given to `MKDEV` when the minor fits in 20 bits |
| DevNumbers.MkdevOfParts | kernelmod/vfs_partition.c:43 | every device number is `MKDEV` of its own major and minor |
| DevNumbers.MkdevCollision | kernelmod/vfs_partition.c:43 | a minor of 2^20 runs into the major |
| DevNumbers.Mkdev8RoundTrip | src/server/backend/eventsource_genl.cpp:139 | the server's `(ma << 8) \| mi` recovers a major below 2^24 and a minor below 256 |
| DevNumbers.Mkdev8Injective | src/server/backend/eventsource_genl.cpp:139 | in that range different pairs give different keys |
| DevNumbers.Mkdev8Collision | src/server/backend/eventsource_genl.cpp:139 | a minor of 256 runs into the major: 0:256 and 1:0 share a key |
| VfsPartition.Descend | kernelmod/vfs_partition.c:95-108 | one step of the descent: an equal key is found at the node, a smaller one sits in the left subtree, a larger one in the right |
| VfsPartition.InsertBst | kernelmod/vfs_partition.c:75-91 | linking a new node at the leaf the descent reaches keeps the tree ordered by `dev` |
| VfsPartition.InsertKeys | kernelmod/vfs_partition.c:75-91 | insertion adds exactly the new key |
| VfsPartition.InsertAt | kernelmod/vfs_partition.c:75-91 | after inserting a fresh key, it maps to the new path and every other key keeps its path |
| VfsPartition.InsertContents | kernelmod/vfs_partition.c:75-91 | inserting a fresh key updates the map at that key only, and keeps the ordering |
| VfsPartition.MinIsLeast | kernelmod/vfs_partition.c:133 | the leftmost node, which the erase moves up, holds the smallest key |
| VfsPartition.RemoveMinContents | kernelmod/vfs_partition.c:133 | removing the leftmost node removes exactly the smallest key and keeps the ordering |
| VfsPartition.DeleteKeys | kernelmod/vfs_partition.c:127-141 | deletion removes exactly the key |
| VfsPartition.DeleteBst | kernelmod/vfs_partition.c:127-141 | deletion keeps the ordering |
| VfsPartition.DeleteAt | kernelmod/vfs_partition.c:127-141 | deletion leaves every other key's path unchanged |
| VfsPartition.DeleteContents | kernelmod/vfs_partition.c:127-141 | the map after deletion is the old map without the key |
| VfsPartition.InsertThenDelete | kernelmod/vfs_partition.c:54-93 | adding a fresh device and then deleting it restores the map |
| VfsPartition.Initialised | kernelmod/vfs_partition.c:33-52 | the initial scan only adds keys and never changes a path already present, whichever allocations fail |
| VfsPartition.InitialisedMeaning | kernelmod/vfs_partition.c:39-47 | every well-formed line whose mount point passes `vfs_pass_partition` and whose node is allocated gets its device into the map |
| VfsPartition.InitialisedOnlyLines | kernelmod/vfs_partition.c:39-47 | every device the scan adds comes from such a line, whose node was allocated, and maps to its mount point |
| VfsPartition.PartitionTable.constructor | kernelmod/vfs_partition.c:23 | the table starts empty |
| VfsPartition.PartitionTable.Search | kernelmod/vfs_partition.c:95-109 | the loop finds a node exactly when the device is in the map, and returns its path |
| VfsPartition.PartitionTable.Add | kernelmod/vfs_partition.c:54-93 | a fresh device is added with its path; a device already present keeps its old path; a failed `kmalloc` leaves the table unchanged; the tree stays ordered |
| VfsPartition.PartitionTable.Lookup | kernelmod/vfs_partition.c:111-125 | 1 and the stored path when the device is present; 0 and the caller's buffer untouched otherwise |
| VfsPartition.PartitionTable.Del | kernelmod/vfs_partition.c:127-141 | the device is removed and every other mapping stays |
| VfsPartition.PartitionTable.Clean | kernelmod/vfs_partition.c:143-157 | the table is left empty |
| VfsPartition.PartitionTable.Init | kernelmod/vfs_partition.c:33-52 | the table becomes what the scan of the mount lines gives: passed lines added in order, first path kept, bad lines and lines whose node cannot be allocated skipped |
| VfsSysfs.ParseCommand | src/kernelmod/vfs_sysfs.c:64 | `%c%hhu` reads a character and a number truncated to a minor below 256 |
| VfsSysfs.Apply | src/kernelmod/vfs_sysfs.c:56-83 | the store keeps one flag per minor |
| VfsSysfs.AddRemove | src/kernelmod/vfs_sysfs.c:72-77 | "aN" sets only flag N and "rN" clears only flag N, returning the byte count |
| VfsSysfs.CommandOfDecimal | src/kernelmod/vfs_sysfs.c:64 | a letter followed by the decimal text of a minor parses to that letter and minor |
| VfsSysfs.EraseNeedsNumber | src/kernelmod/vfs_sysfs.c:64-71 | "eN" clears every flag, while a bare "e" is refused with -EINVAL |
| VfsSysfs.Invalid | src/kernelmod/vfs_sysfs.c:64-66 | unparsable input or another letter returns -EINVAL and leaves the flags unchanged |
| VfsSysfs.Members | src/kernelmod/vfs_sysfs.c:29-31 | the minors listed are increasing, all set, and every set minor is listed |
| VfsSysfs.Decimals | src/kernelmod/vfs_sysfs.c:35-38 | each minor is written in decimal |
| VfsSysfs.ShowEmpty | src/kernelmod/vfs_sysfs.c:44-45 | the output is just "\n" exactly when no flag is set |
| VfsSysfs.ShowRoundTrip | src/kernelmod/vfs_sysfs.c:29-47 | for a non-empty set, chopping the newline and splitting on ',' gives the decimal texts of exactly the set minors, in order, which read back as those minors |
| VfsSysfs.UnnamedDevices.constructor | src/kernelmod/vfs_sysfs.c:18 | the flag array starts all clear |
| VfsSysfs.UnnamedDevices.Store | src/kernelmod/vfs_sysfs.c:56-83 | the array and the return value are those the command gives |
| VfsSysfs.UnnamedDevices.Show | src/kernelmod/vfs_sysfs.c:21-48 | the loop writes the set minors comma-separated and a newline, and returns the length |
| IndexUtils.HashIsPoly | library/src/index/index_utils.c:30-38 | `hash` is the polynomial Σ c·31^k over the (signed) characters, modulo 2^32; the newer copy at src/library/src/index/index_utils.c:13-21 computes the same hash |
| IndexUtils.HashFromPoly | library/src/index/index_utils.c:32-36 | the loop from any running value `acc` gives `acc·31^n + poly` modulo 2^32 |
| IndexUtils.HashEmpty | library/src/index/index_utils.c:30-38 | `hash("") == 0` |
| IndexUtils.HashSnoc | library/src/index/index_utils.c:33-35 | one more character gives `h*31 + c` wrapped to 32 bits |
| IndexUtils.PolySnoc | library/src/index/index_utils.c:33-35 | the polynomial grows by the same step |
| IndexUtils.GetInsertPos | library/src/index/index_utils.c:40-61 | the result never exceeds `size`, is 0 for an empty array, and with `favor_big == 0` stays below `size` on a non-empty one; the newer copy at src/library/src/index/index_utils.c:23-44 has the same bounds |
| IndexUtils.ScanPos | library/src/index/index_utils.c:51-60 | the loop's answer stays within the array (below it when not favouring big) |
| IndexUtils.LowerBound | library/src/index/index_utils.c:40-61 | on a strictly increasing array with `favor_big` the result is the lower bound: everything before it is smaller and the element at it, if any, is at least the value; the newer copy at src/library/src/index/index_utils.c:23-44 gives the same lower bound |
| IndexUtils.ScanPosLower | library/src/index/index_utils.c:51-57 | the loop stops at the first element not below the value |
| IndexUtils.FloorIndex | library/src/index/index_utils.c:40-61 | without `favor_big` the result is the last element not above the value |
| IndexUtils.ScanPosFloor | library/src/index/index_utils.c:51-57 | the loop's floor position brackets the value |
| IndexUtils.FindsPresent | library/src/index/index_utils.c:44-53 | a value present in the array is found at its index, whichever way `favor_big` is set; so does the newer copy at src/library/src/index/index_utils.c:27-36 |
| IndexUtils.ScanPosPresent | library/src/index/index_utils.c:51-53 | the loop returns the index of an equal element it reaches |
| IndexUtils.Shifted | library/src/index/index_utils.c:87-91 | the shift keeps the array's length |
| IndexUtils.CountFrom | library/src/index/index_utils.c:86-92 | the count of offsets at or after `start_off` is at most the length |
| IndexUtils.CountFromNone | library/src/index/index_utils.c:83-84 | with no offset at or after `start_off` the count is 0 |
| IndexUtils.ShiftSorted | library/src/index/index_utils.c:77-93 | on a sorted array each offset at or after `start_off` gains `delta` (wrapped to 32 bits), the others are unchanged, and the early exits agree with counting |
| IndexUtils.ShiftedAt | library/src/index/index_utils.c:88-89 | one offset after the shift |
| IndexUtils.AddInkwFsbufOffsets | library/src/index/index_utils.c:77-93 | the array is updated in place to the shifted offsets and the result is how many changed (0 for an empty array or when the last offset is below `start_off`); so does the newer copy at src/library/src/index/index_utils.c:60-76 |
| CompositeStr.LittleEndian | library/src/index/composite_str.c:12 | the pointer is held as 8 bytes |
| CompositeStr.LittleEndianRoundTrip | library/src/index/composite_str.c:12 | a pointer stored in the union reads back unchanged |
| CompositeStr.TopByteZero | library/src/index/composite_str.c:12 | a user-space pointer's top byte is 0, never the 0x75 tag |
| CompositeStr.CString | library/src/index/composite_str.c:12 | the inline string read is the bytes up to the first NUL |
| CompositeStr.CStringOfTerminated | library/src/index/composite_str.c:23 | reading back a NUL-terminated copy gives the string |
| CompositeStr.ShortCell | library/src/index/composite_str.c:21-23 | a short string is stored inline with the flag byte 0x75 |
| CompositeStr.ShortRoundTrip | library/src/index/composite_str.c:10-30 | a short string (under 7 bytes) reads back through `get_cs_string` |
| CompositeStr.LongRoundTrip | library/src/index/composite_str.c:10-30 | a long string reads back through the heap pointer `strdup` returned |
| CompositeStr.ShortCellPointerNonNull | library/src/index/composite_str.c:22-27 | writing the tag makes the pointer non-null, so a short store never reports failure |
| CompositeStr.FreedBlock | library/src/index/composite_str.c:32-36 | a block is freed iff the pointer is non-null and the flag is not the tag |
| CompositeStr.FreeOnlyLong | library/src/index/composite_str.c:32-36 | a short string frees nothing, a null pointer frees nothing, a long string frees its block |
| CompositeStr.Heap.constructor | library/src/index/composite_str.c:20 | the heap starts with no blocks |
| CompositeStr.Cell.constructor | library/src/index/composite_str.c:18 | a cell starts as a null pointer |
| CompositeStr.Cell.SetCsString | library/src/index/composite_str.c:15-30 | length 7 or more stores a `strdup` pointer, less stores inline; the code is `CS_SHORT_STR`, `CS_LONG_STR`, or `CS_SET_STR_FAIL` when `strdup` failed |
| CompositeStr.Cell.FreeCompositeStr | library/src/index/composite_str.c:32-36 | only a long string's block is released |
| CompositeStr.GetCsString | library/src/index/composite_str.c:10-13 | with the tag set, the string read back is at most seven bytes, holds no NUL and is a prefix of the cell's bytes |
| AllmemIndex.FindIn | library/src/index/index_allmem.c:61-70 | the scan returns the first keyword with the query's name, or none when no keyword has it |
| AllmemIndex.LookupComplete | library/src/index/index_allmem.c:56-71 | in a well-formed index a keyword can only live in bucket `hash(kw) % count`, where the lookup finds it |
| AllmemIndex.Index.constructor | library/src/index/index_allmem.c:231-245 | `new_allmem_index` starts with `count` empty buckets |
| AllmemIndex.Index.GetIndexKeyword | library/src/index/index_allmem.c:56-71 | the lookup searches the query's bucket and returns the position of the keyword with that name, or none |
| AllmemIndex.Index.GetIndexKeywordForAppend | library/src/index/index_allmem.c:108-129 | an existing keyword is returned; otherwise the bucket grows by `IDX_KW_BLK` when full and a new keyword is appended, and a failed allocation returns none |
| AllmemIndex.ForAppendWellFormed | library/src/index/index_allmem.c:108-129 | the lookup-or-append keeps every keyword in its hash bucket, once, and returns a position at which the keyword is found |
| AllmemIndex.NewKeywordFresh | library/src/index/index_allmem.c:89-106 | a new keyword starts with no offsets and `empty == FSBUF_BLK` |
| AllmemIndex.FindAppended | library/src/index/index_allmem.c:123-127 | a keyword appended to a bucket that lacked it is found at the end |
| AllmemIndex.Index.AddIndexAllmem | library/src/index/index_allmem.c:131-157 | the index becomes the old index with the offset added to the keyword, and stays well formed |
| AllmemIndex.Index.InsertOffsetAllmem | library/src/index/index_allmem.c:139-156 | the offset is inserted at its sorted position (growing the array by `FSBUF_BLK` when full) unless already present |
| AllmemIndex.AddWellFormed | library/src/index/index_allmem.c:131-157 | adding keeps every bucket's keywords distinct and in their hash bucket, and every offset array strictly increasing |
| AllmemIndex.InsertOffsetWellFormed | library/src/index/index_allmem.c:139-156 | inserting an offset keeps the array strictly increasing |
| AllmemIndex.InsertAtIncreasing | library/src/index/index_allmem.c:139-154 | inserting a new offset at `get_insert_pos` keeps the array strictly increasing and adds exactly that offset |
| AllmemIndex.AddThenFind | library/src/index/index_allmem.c:56-71 | after a successful add, the lookup finds the keyword and its offsets contain the one added |
| AllmemIndex.InsertOffsetFinds | library/src/index/index_allmem.c:152-156 | after the insert the keyword is still found and holds the offset |
| AllmemIndex.ReAddIsNoOp | library/src/index/index_allmem.c:139-142 | re-adding an offset a keyword already holds changes nothing |
| AllmemIndex.AddCounts | library/src/index/index_allmem.c:144-156 | a successful insert adds one to `len` and takes one from `empty`, refilled to `FSBUF_BLK` first when it was 0 |
| AllmemIndex.ShiftAll | library/src/index/index_allmem.c:159-168 | the shift keeps the number of buckets |
| AllmemIndex.Index.AddFsbufOffsetsAllmem | library/src/index/index_allmem.c:159-168 | every keyword of every bucket gets `add_inkw_fsbuf_offsets` applied |
| AllmemIndex.ShiftAllWellFormed | library/src/index/index_allmem.c:159-168 | a shift that moves no offset past its neighbours or out of 32 bits keeps the index well formed |
| AllmemIndex.ShiftKeepsIncreasing | library/src/index/index_allmem.c:163-166 | under that condition each offset array stays strictly increasing |
| AllmemIndex.Index.GetStatsAllmem | library/src/index/index_allmem.c:32-54 | memory is the bucket table plus each bucket's keyword slots and each keyword's offset slots and long strings; keywords is the sum of bucket lengths; offsets is the sum of keyword lengths (32-bit wrapped) |
| AllmemIndex.KeywordsStats | library/src/index/index_allmem.c:45-52 | the inner loop adds up a bucket's memory and offset counts |
| AllmemIndex.Index.SaveTable | library/src/index/index_allmem.c:269-280 | bucket i's entry holds its length and the header size plus the sizes of all records in earlier buckets |
| AllmemIndex.BucketRecordsSize | library/src/index/index_allmem.c:273-278 | a bucket's records take 8 + strlen + 1 + 4·len bytes each |
| AllmemIndex.TableOffsetsAdvance | library/src/index/index_allmem.c:279 | each bucket's table offset is the previous one plus that bucket's records, at least 9 bytes per keyword |
| FsIndex.WcsLen | library/src/index/index.c:159 | `wcslen` stops at the first NUL character of the converted name |
| FsIndex.Run | library/src/index/index.c:160-162 | from one start the inner loop takes the prefixes of lengths 1..`MAX_KW_LEN` that fit |
| FsIndex.AddIndex | library/src/index/index.c:151-169 | the keywords handed to `fsi->add_index` are exactly the windows of the converted name that convert back to UTF-8, in loop order; nothing when the first conversion fails |
| FsIndex.AddRun | library/src/index/index.c:160-168 | the inner loop emits one start's windows |
| FsIndex.WindowsCount | library/src/index/index.c:159-160 | an n-character name has Σᵢ min(8, n−i) (start, length) pairs |
| FsIndex.WindowAt | library/src/index/index.c:159-162 | every window `converted[i..j)` with `j - i <= MAX_KW_LEN` is emitted, at a known position |
| FsIndex.RunAt | library/src/index/index.c:160-162 | the window of length `j - i` is the inner loop's `j - i - 1`-th |
| FsIndex.WindowsAreKeywords | library/src/index/index.c:160-162 | every emitted keyword is a substring of 1 to `MAX_KW_LEN` characters |
| FsIndex.AddIndexCount | library/src/index/index.c:159-168 | when every window converts, `add_index` is called Σᵢ min(8, n−i) times |
| FsIndex.U32RoundTrip | library/src/index/index.c:73-74 | a 32-bit field written little-endian reads back |
| FsIndex.OffsetsRoundTrip | library/src/index/index.c:81 | the offset array reads back from its bytes |
| FsIndex.EncodeRecord | library/src/index/index.c:62-85 | a record is 8 + strlen + 1 + 4·len bytes |
| FsIndex.SaveIndexKeyword | library/src/index/index.c:78-82 | a failed write returns 0 |
| FsIndex.SaveSize | library/src/index/index.c:66-84 | `save_index_keyword` returns the total record size, the size the save table counts |
| FsIndex.LoadIndexKeyword | library/src/index/index.c:26-60 | a loaded keyword never consumes more than the input and its name has no NUL |
| FsIndex.RecordRoundTrip | library/src/index/index.c:26-84 | loading what `save_index_keyword` wrote recovers the name, the offsets and the count, the string size being `sizes[0]-4-4*sizes[1]` |
| FsIndex.RecordSkipped | library/src/index/index.c:40-44 | a record whose name is not the query returns -1 after skipping exactly its 4·len offset bytes |
| FsIndex.RecordHeader | library/src/index/index.c:32-33 | the header fields of a saved record give back the string size |
| FsIndex.LoadBody | library/src/index/index.c:32-59 | the body loader stays within the bytes read |
| FsIndex.BodyRoundTrip | library/src/index/index.c:36-59 | the body after the header reads back as the keyword |
| FsIndex.LoadFsIndex | library/src/index/index.c:121-149 | a missing file returns 1; the all-memory loader runs only for `LOAD_ALL`, the all-file loader only for `LOAD_NONE` |
| FsIndex.IndexHeader | library/src/index/index.c:127-138 | the header is the magic, its NUL and the bucket count |
| FsIndex.LoadFsIndexHeader | library/src/index/index.c:127-148 | after a good header the policy picks the loader, and an unknown policy returns -1 |
| FsIndex.BadMagic | library/src/index/index.c:127-131 | bad magic returns 2 |
| VfsChange.MemoryAppend | kernelmod/vfs_change.c:24-29 | the memory of a queue is additive over its parts, so `REMOVE_ENTRY` and the append keep `total_memory` equal to the sum of sizes |
| VfsChange.MergeNewFile | kernelmod/vfs_change.c:292-309 | a new-file meets a queued entry: a del-file of the same path is removed and the event dropped; a rename-file from that path becomes the new action on its destination and the event is dropped; otherwise both go on unchanged |
| VfsChange.MergeDelFile | kernelmod/vfs_change.c:323-339 | a del-file meets a queued entry: a new/link/symlink of the same path is removed with the event; a rename-file onto the path becomes a del-file of its source; otherwise both go on |
| VfsChange.MergeRenameFile | kernelmod/vfs_change.c:353-378 | a rename-file always goes on: a queued new-* of its source is removed and the event becomes that action on the destination; a del-file of its destination is removed and the event becomes a del-file; a reverse rename is removed |
| VfsChange.MergeStep | kernelmod/vfs_change.c:380-394 | each merge function keeps at most the one queued entry at its size, and the event it passes on keeps its size and a merge function |
| VfsChange.MergeScan | kernelmod/vfs_change.c:391-400 | the backward scan never lengthens the queue |
| VfsChange.ScanMerges | kernelmod/vfs_change.c:391-400 | the first loop of `merge_action` gives the scan's queue and event, and counts the entries it removed and the memory it freed |
| VfsChange.PassesMeans | kernelmod/vfs_change.c:292-378 | the entries a merge function continues past, for each event kind, are exactly those that do not match its rules |
| VfsChange.AllPassMeans | kernelmod/vfs_change.c:392-395 | a run of entries is passed over iff each one is |
| VfsChange.ScanAt | kernelmod/vfs_change.c:392-400 | the scan passes over a suffix of non-matching entries and acts at the first match from the end |
| VfsChange.NewFileCancelsDelete | kernelmod/vfs_change.c:295-301 | new-file(a) after a queued del-file(a): the del entry is removed and the new event is not queued |
| VfsChange.NewFileAfterRename | kernelmod/vfs_change.c:300-307 | new-file(a) after a queued rename-file(a, X): the rename becomes new-file(X) and the event is dropped |
| VfsChange.DeleteCancelsNewFile | kernelmod/vfs_change.c:326-331 | del-file(a) after a queued new/link/symlink(a): both vanish |
| VfsChange.DeleteAfterRename | kernelmod/vfs_change.c:331-337 | del-file(a) after a queued rename-file(X, a): the rename becomes del-file(X) and the event is dropped |
| VfsChange.RenameStepOnNew | kernelmod/vfs_change.c:356-363 | rename-file(a, b) meeting new-*(a) removes it and becomes that new action on b |
| VfsChange.RenameAfterNewFile | kernelmod/vfs_change.c:356-363 | rename-file(a, b) after new-*(a): the new entry is removed and the scan goes on with that action on b |
| VfsChange.RenameAfterDelete | kernelmod/vfs_change.c:364-370 | rename-file(a, b) after del-file(b): the del entry is removed and the scan goes on with del-file(a) |
| VfsChange.RenameAfterReverse | kernelmod/vfs_change.c:371-375 | rename-file(a, b) after rename(b, a): only the queued entry is removed |
| VfsChange.FolderActionsNotMerged | kernelmod/vfs_change.c:380-389 | folder actions have no merge function and are queued unchanged |
| VfsChange.DropRun | kernelmod/vfs_change.c:402-422 | the duplicate removal keeps a prefix of the queue, drops only entries identical to the last, and stops at the first different one |
| VfsChange.DropRunKeeps | kernelmod/vfs_change.c:402-422 | with the last entry kept, the result keeps the newest of a trailing run of identical entries |
| VfsChange.DedupMeans | kernelmod/vfs_change.c:402-423 | the event survives only if it differs from the queue's last entry (and then the queue is untouched); otherwise one copy of the trailing run is kept |
| VfsChange.DedupRun | kernelmod/vfs_change.c:402-423 | the second loop gives that result and counts the entries removed and memory freed |
| VfsChange.DropStep | kernelmod/vfs_change.c:416-421 | one step of the duplicate loop removes one identical entry and its memory |
| VfsChange.StepMemory | kernelmod/vfs_change.c:292-378 | a merge step never increases the memory of the queue plus the pending event |
| VfsChange.ScanMemory | kernelmod/vfs_change.c:391-400 | nor does the whole scan |
| VfsChange.DedupMemory | kernelmod/vfs_change.c:402-423 | nor does the duplicate removal |
| VfsChange.QueuedMemory | kernelmod/vfs_change.c:386-423 | merging and queueing an event adds at most its own size to the memory |
| VfsChange.QueuedWellFormed | kernelmod/vfs_change.c:386-423 | merging keeps every entry well formed: exactly the renames carry a destination |
| VfsChange.ScanWellFormed | kernelmod/vfs_change.c:391-400 | the scan keeps entries well formed |
| VfsChange.StepWellFormed | kernelmod/vfs_change.c:292-378 | each merge rule keeps entries well formed |
| VfsChange.Encode | kernelmod/vfs_change.c:136-147 | an entry is written as its action byte, src and NUL, then dst and NUL when present |
| VfsChange.EncodeAllSnoc | kernelmod/vfs_change.c:134-151 | the stream of a queue is the concatenation of its entries' encodings, in FIFO order |
| VfsChange.Taken | kernelmod/vfs_change.c:134-141 | the number of entries that fit is at most the queue length |
| VfsChange.MoveScan | kernelmod/vfs_change.c:130-151 | the copy loop writes the encodings of the first entries that fit, never more than `kira.size` bytes, and frees their memory |
| VfsChange.CopyScan | kernelmod/vfs_change.c:59-96 | the text listing never exceeds the buffer and only moves `last` forward |
| VfsChange.ChangeQueue.constructor | kernelmod/vfs_change.c:33-34 | the queue starts empty with all counters 0 |
| VfsChange.ChangeQueue.RemoveOldest | kernelmod/vfs_change.c:225-241 | head entries are dropped while the memory is over `MAX_VFS_CHANGE_MEM`, until it is within it or the queue is empty, each drop counted in `discarded` |
| VfsChange.ChangeQueue.MergeAction | kernelmod/vfs_change.c:386-424 | the queue and the surviving event are what the two loops of `merge_action` give, counters kept equal to length and memory |
| VfsChange.ChangeQueue.VfsChanged | kernelmod/vfs_change.c:426-473 | after eviction the entry holds `root ++ src` and `root ++ dst`; it is queued directly, or merged first, or lost when allocation fails; `total_changes` counts queued events and memory stays bounded |
| VfsChange.ChangeQueue.MoveChanges | kernelmod/vfs_change.c:120-164 | -ENOMEM changes nothing; otherwise the entries that fit are encoded, removed in FIFO order and their number reported in `kira.size` |
| VfsChange.ChangeQueue.CopyChanges | kernelmod/vfs_change.c:59-96 | the listing of entries newer than `last` fits in the buffer |
| EventMerge.Remove | src/kernelmod/event_merge.c:39-43 | `REMOVE_ENTRY` takes out exactly entry `j`, keeping the order of the rest |
| EventMerge.Retag | src/kernelmod/event_merge.c:70-73 | writing through a `pair` pointer gives the named event the new action and cookie 0 and leaves every other event alone |
| EventMerge.UnpairAt | src/kernelmod/event_merge.c:244-246 | clearing a partner's `pair` changes only that field of the named event |
| EventMerge.MergeNewFile | src/kernelmod/event_merge.c:55-78 | the rule fires exactly on a del-file or rename-from of the same device and path, and removes one entry |
| EventMerge.MergeDelFile | src/kernelmod/event_merge.c:88-159 | the rule of del-file and rename-from (`merge_rename_from_file` has the same body) fires exactly on a creation of the same path or a paired rename-to of it |
| EventMerge.MergeRenameToFile | src/kernelmod/event_merge.c:168-190 | the rule fires exactly on a del-file of the same path when the incoming rename-to is paired |
| EventMerge.MergeFn | src/kernelmod/event_merge.c:192 | only actions with an entry in `action_merge_fns` can merge, and a merge removes one entry |
| EventMerge.MergeBackAt | src/kernelmod/event_merge.c:347-353 | the backward walk acts at the newest entry that merges |
| EventMerge.MergeBackNone | src/kernelmod/event_merge.c:347-353 | the walk fails exactly when no entry merges |
| EventMerge.FirstCookie | src/kernelmod/event_merge.c:332-339 | the pairing finds the first buffered event with the cookie, or reports that none has it |
| EventMerge.FirstCookieUnique | src/kernelmod/event_merge.c:332-339 | that index is the only answer with those properties |
| EventMerge.Paired | src/kernelmod/event_merge.c:324-345 | `pair` is cleared; a rename-to is paired both ways with the first event of its cookie, or becomes a new file with cookie 0 when there is none |
| EventMerge.RenameToPairs | src/kernelmod/event_merge.c:333-337 | a matched rename-to and its partner point at each other and nothing else changes |
| EventMerge.Merged | src/kernelmod/event_merge.c:346-361 | the list grows by one when the event is added and shrinks by one when it merges |
| EventMerge.DeleteThenNew | src/kernelmod/event_merge.c:50-62 | del(X) then new(X): the delete is removed and the new event is not buffered |
| EventMerge.RenameThenNew | src/kernelmod/event_merge.c:51-75 | ren_fr(X)+ren_to(Y) then new(X): the rename-from is removed and ren_to(Y) becomes new(Y) with cookie 0 |
| EventMerge.NewThenGone | src/kernelmod/event_merge.c:83-95 | new(X) then del(X) or ren_fr(X): both disappear |
| EventMerge.RenamedThenGone | src/kernelmod/event_merge.c:84-112 | ren_fr(X)+ren_to(Y) then del(Y) or ren_fr(Y): ren_to(Y) is removed and ren_fr(X) becomes del(X) |
| EventMerge.UnpairedRenameToStays | src/kernelmod/event_merge.c:101-104 | an unpaired rename-to never takes part in a merge |
| EventMerge.DeleteThenRenameTo | src/kernelmod/event_merge.c:164-187 | del(X)+ren_fr(Y) then ren_to(X): the delete is removed, ren_fr(Y) becomes del(Y), the rename-to is dropped |
| EventMerge.UnmatchedRenameToIsNew | src/kernelmod/event_merge.c:340-344 | a rename-to with no buffered cookie is handled exactly as a new file |
| EventMerge.NotMerged | src/kernelmod/event_merge.c:192-360 | folder, mount and unmount events are appended unchanged but for `pair` |
| EventMerge.PickFrom | src/kernelmod/event_merge.c:240-250 | a pick neither creates nor loses events |
| EventMerge.PickFromBound | src/kernelmod/event_merge.c:247-248 | at most `DUMP_SIZE` events are moved |
| EventMerge.PickFromIds | src/kernelmod/event_merge.c:240-250 | the moved and remaining events are the original ones, as a multiset of identities |
| EventMerge.PickFromKeepsWaiting | src/kernelmod/event_merge.c:242 | an unpaired rename-from is never moved |
| EventMerge.PickFromClears | src/kernelmod/event_merge.c:244-246 | no remaining event is still the partner of a moved rename-from |
| EventMerge.CheckOp | src/kernelmod/event_merge.c:291-310 | 0 events disarm the timer, 1 arms it, `MERGE_BUFFER_SIZE` or more trigger a pick |
| EventMerge.EventBuffer.constructor | src/kernelmod/event_merge.c:17-20 | the buffer starts empty, not quitting, timer idle |
| EventMerge.EventBuffer.PickEvents | src/kernelmod/event_merge.c:228-252 | sent and kept events partition the list; quitting sends all; otherwise at most 10 are sent, waiting rename-froms stay and moved partners are unpaired |
| EventMerge.EventBuffer.DoEventMerge | src/kernelmod/event_merge.c:317-368 | the list becomes the merge result, picked when it reaches `MERGE_BUFFER_SIZE`, and the timer follows `check_events` and `notify_events` |
| EventMerge.EventBuffer.TimerFire | src/kernelmod/event_merge.c:254-289 | the callback picks, and re-arms the timer exactly when it sent events and some remain |
| EventMerge.EventBuffer.Clearup | src/kernelmod/event_merge.c:377-379 | the quit flag is set and the list untouched |
| EventMerge.FindCookie | src/kernelmod/event_merge.c:332-339 | the pairing loop returns `FirstCookie` |
| EventMerge.Pair | src/kernelmod/event_merge.c:324-345 | the pairing step computes `Paired` |
| EventMerge.ScanBack | src/kernelmod/event_merge.c:347-353 | the backward loop computes `MergeBack` |
| EventMerge.MergeEvent | src/kernelmod/event_merge.c:324-361 | the list part of `do_event_merge` computes `Merged` |
| EventMerge.PickScan | src/kernelmod/event_merge.c:240-250 | the pick loop computes `PickFrom` from the empty state |
| ServerStream.ReadStr | server/src/server.cpp:105-106 | the C string read at an offset holds no NUL and lies inside the data |
| ServerStream.ReadStrEncoded | server/src/server.cpp:105-106 | a string written with its NUL terminator reads back exactly |
| ServerStream.DecodeEncoded | server/src/server.cpp:102-144 | one item written by `move_vfs_changes` decodes back to its action, source and destination, and the cursor lands just past it |
| ServerStream.DecodeAllEncoded | server/src/server.cpp:101-163 | decoding as many items as the kernel reported in `ira.size` gives back the encoded entries in order |
| ServerStream.StreamRoundTrip | server/src/server.cpp:79-106 | what `move_vfs_changes` fills the buffer with reads back as the entries it took off the queue |
| ServerStream.ReadItem | server/src/server.cpp:103-144 | the per-item reading code computes the decoding function |
| ServerStream.CreateArrives | server/src/server.cpp:109-125 | a creation joins the create list, and a pending delete or rename list is signalled first |
| ServerStream.DeleteArrives | server/src/server.cpp:126-140 | a delete joins the delete list, and a pending create or rename list is signalled first |
| ServerStream.RenameArrives | server/src/server.cpp:141-158 | a rename joins the rename list, and a pending delete or create list is signalled first |
| ServerStream.Batcher.constructor | server/src/server.cpp:97-99 | the three lists start empty |
| ServerStream.Batcher.Push | server/src/server.cpp:108-162 | signalled plus pending changes are the old pending ones plus the event's; at most one non-empty batch of the other kind is signalled; unknown actions change nothing |
| ServerStream.Batcher.Flush | server/src/server.cpp:165-174 | the one pending list is signalled whole and all lists end empty |
| ServerStream.Emit | server/src/server.cpp:108-174 | appending a signalled batch of a new kind keeps the batches non-empty and alternating |
| ServerStream.ReadRound | server/src/server.cpp:75-174 | a round with no changes signals nothing; otherwise its batches carry every decoded change in order, each batch a whole run of one kind |
| ServerStream.OnEvent | src/server/backend/server.cpp:54-119 | one pass of the service loop keeps every change, signals at most two alternating batches, and flushes everything on `end` |
| ServerStream.ServeAll | src/server/backend/server.cpp:53-121 | with every event ending its group, each change is signalled on its own, in order |
| ServerStream.ServeStep | src/server/backend/server.cpp:108-119 | each such pass extends the signalled changes by exactly the event's |
| EventSourceGenl.RootOf | src/server/backend/eventsource_genl.cpp:267-269 | the root prefixed to a known device's paths is its mount point, and none exactly when that is "/" |
| EventSourceGenl.Route | src/server/backend/eventsource_genl.cpp:262-304 | an action below mount on an unknown device is ignored; rename-froms are stored by cookie; mount and unmount refresh; creations and deletes are saved with no destination; a rename-to with a stored cookie becomes a rename from the stored path to the new one |
| EventSourceGenl.UnmatchedRenameToTakesUnset | src/server/backend/eventsource_genl.cpp:250-292 | as written, a rename-to with no stored cookie is saved with whatever `_dst` held |
| EventSourceGenl.Normalised | src/server/backend/eventsource_genl.cpp:262-304 | with `_dst` null there, a saved event has a destination exactly when it is a paired rename |
| EventSourceGenl.FitsExactly | src/server/backend/eventsource_genl.cpp:318-332 | the size check of `saveData` admits exactly the layouts that fit in `buf` |
| EventSourceGenl.CStringAt | src/server/backend/eventsource_genl.cpp:129-130 | a C string read out of the buffer has no NUL and stays inside it |
| EventSourceGenl.ReadCString | src/server/backend/eventsource_genl.cpp:337-339 | a string copied with its NUL terminator reads back |
| EventSourceGenl.ReadLayout | src/server/backend/eventsource_genl.cpp:336-349 | `getEvent` reads back `root ++ src` at `buf` and `root ++ dst` at `dst` |
| EventSourceGenl.StrCpy | src/server/backend/eventsource_genl.cpp:338-346 | `strcpy` writes the string and its NUL at the offset and touches nothing else |
| EventSourceGenl.Classify | src/server/backend/eventsource_genl.cpp:262-304 | the branching code of `handleMsg` computes `Normalised` |
| EventSourceGenl.EventSource.constructor | src/server/backend/eventsource_genl.cpp:196-224 | the source starts with no message and no stored renames, and with the partitions of a first refresh |
| EventSourceGenl.EventSource.SaveData | src/server/backend/eventsource_genl.cpp:316-352 | it succeeds exactly when the paths fit; on failure nothing changes; on success `act` is set, the buffer starts with the layout and `dst` points at the destination |
| EventSourceGenl.EventSource.UpdatePartitions | src/server/backend/eventsource_genl.cpp:196-224 | the mount cache is refreshed; with no entry rooted at "/" nothing else changes; otherwise the table is rebuilt and the kernel's unnamed devices are brought to the dlnfs minors, removals first |
| EventSourceGenl.EventSource.Emit | src/server/backend/eventsource_genl.cpp:306-311 | the event is packed, `new_msg` says whether it fit, and a paired rename's cookie is dropped either way |
| EventSourceGenl.EventSource.HandleMsg | src/server/backend/eventsource_genl.cpp:239-314 | the state after one message is what its outcome prescribes; only mount and unmount touch the mount cache and the kernel's device list; a missing attribute is ignored |
| EventSourceGenl.EventSource.GetEvent | src/server/backend/eventsource_genl.cpp:122-137 | an event is handed out exactly when the message produced one, and it always has `end` set |
| EventSourceGenl.PartitionMapKeys | src/server/backend/eventsource_genl.cpp:212-216 | the table has a key exactly when some entry of the mount list has that device |
| EventSourceGenl.PartitionMapLast | src/server/backend/eventsource_genl.cpp:216 | a key maps to the mount point of the last entry with it, since `insert` replaces |
| EventSourceGenl.DlnfsDevsExact | src/server/backend/eventsource_genl.cpp:217-220 | a minor is reported exactly when some `fuse.dlnfs` entry has it |
| EventSourceGenl.CollectPartitions | src/server/backend/eventsource_genl.cpp:212-221 | the loop builds that table and that set |
| EventHandler.RootPrefix | src/server/src/core/default_event_handler.cpp:79-83 | the prefix for a known device is its mount point, empty exactly when that is "/" (or empty) |
| EventHandler.Prefix | src/server/src/core/default_event_handler.cpp:116-120 | the root goes before the source, and before the destination only when there is one; nothing else changes |
| EventHandler.Prepare | src/server/src/core/default_event_handler.cpp:65-124 | mount and unmount refresh; an unknown device drops the event; rename-froms are held by cookie; a rename-to of a held cookie becomes a rename from the held path, both prefixed; other events are prefixed and kept |
| EventHandler.Ignored | src/server/src/core/default_event_handler.cpp:161-175 | a ".longname" path is always ignored, and when the previous event was ignored, nothing else is |
| EventHandler.IgnoredEvent | src/server/src/core/default_event_handler.cpp:161-175 | the method computes `Ignored` with the dlnfs mount lookup |
| EventHandler.Dispatch | src/server/src/core/default_event_handler.cpp:131-153 | a kept event outside the index directory is added for creations, removed for deletes, shown for renames; an ignored one or one in the index directory does nothing |
| EventHandler.LongnameNeverIndexed | src/server/src/core/default_event_handler.cpp:132-163 | a ".longname" path never reaches the index |
| EventHandler.DefaultEventHandler.constructor | src/server/src/core/default_event_handler.cpp:11-13 | the handler starts with no held renames and the index directory it skips |
| EventHandler.DefaultEventHandler.Handle | src/server/src/core/default_event_handler.cpp:61-155 | a mount or unmount updates the mount manager only; a dropped event changes nothing; a rename-from is held unless its cookie already is (`emplace`); a ready event releases a paired cookie and is dispatched; the earlier copy, src/server/backend/default_event_handler.cpp:62-157, is the same but for the index directory it skips |
| EventAdaptor.IgnoreAction | src/server/backend/lib/eventadaptor.cpp:67-92 | a ".longname" path is ignored; after an ignored action any other path is kept without the dlnfs check |
| EventAdaptor.Flags | src/server/backend/lib/eventadaptor.cpp:46-59 | one "ignored" flag per drained pair |
| EventAdaptor.Kept | src/server/backend/lib/eventadaptor.cpp:53-57 | a drain keeps no more pairs than the queue held |
| EventAdaptor.Select | src/server/backend/lib/eventadaptor.cpp:53-57 | the in-order filter keeps only pairs of the queue, at most as many as it held |
| EventAdaptor.SelectSnoc | src/server/backend/lib/eventadaptor.cpp:45-58 | one more drained pair adds itself at the end of the filter exactly when its flag is off |
| EventAdaptor.KeptIsSelect | src/server/backend/lib/eventadaptor.cpp:45-58 | the pairs a drain keeps are exactly the queue's pairs whose "ignored" flag is off, in queue order |
| EventAdaptor.FlagsExtend | src/server/backend/lib/eventadaptor.cpp:47-59 | the flags of a longer queue extend those of its prefix: each flag depends only on what came before |
| EventAdaptor.LongnameDropped | src/server/backend/lib/eventadaptor.cpp:70-73 | no ".longname" path is handed on |
| EventAdaptor.AfterIgnoredKept | src/server/backend/lib/eventadaptor.cpp:51-76 | the pair right after an ignored one is kept unless it is a ".longname" path |
| EventAdaptor.KeptHolds | src/server/backend/lib/eventadaptor.cpp:54-57 | every pair whose flag is off is handed on |
| EventAdaptor.Adaptor.constructor | src/server/backend/lib/eventadaptor.cpp:11-14 | the queue starts empty |
| EventAdaptor.Adaptor.PushEvent | src/server/backend/lib/eventadaptor.cpp:27-30 | the pair is enqueued at the back |
| EventAdaptor.Adaptor.PopEvent | src/server/backend/lib/eventadaptor.cpp:32-40 | false on an empty queue, which is left alone; otherwise the oldest pair is dequeued |
| EventAdaptor.Adaptor.OnHandleEvent | src/server/backend/lib/eventadaptor.cpp:42-64 | the queue is drained; the handler gets the kept pairs in order, and is called exactly when there are any |
| UnnamedSync.ReadLine | src/server/backend/partition.cpp:87 | `readLine` gives a prefix of the text that is all of it or ends at its first newline |
| UnnamedSync.ReadChopped | src/server/backend/partition.cpp:87-95 | the line with its last character chopped, split at commas, always yields at least one token |
| UnnamedSync.GetLine | src/server/src/core/mount_manager.cpp:189-190 | `getline` fails exactly on an empty stream and otherwise gives a prefix |
| UnnamedSync.ReadBlankFails | src/server/src/core/mount_manager.cpp:182-203 | as written, the read fails exactly when the first line is blank, and an empty file reads as the empty set |
| UnnamedSync.ReadBlankEmpty | src/server/src/core/mount_manager.cpp:182-203 | the corrected read takes a blank line as the empty set and otherwise agrees with the code |
| UnnamedSync.Command | src/server/backend/partition.cpp:102-119 | each write is the action letter then the minor, cut to 31 characters only by `snprintf` into the 32-byte buffer |
| UnnamedSync.Plan | src/server/backend/partition.cpp:108-122 | an "r" write for each removed minor, then an "a" write for each added one |
| UnnamedSync.ApplyWrites | src/server/backend/partition.cpp:63-76 | the writes apply to the kernel's device table in turn, a write that cannot open the file changing nothing |
| UnnamedSync.Attempted | src/server/backend/partition.cpp:112-121 | the writes made before the first failure |
| UnnamedSync.AttemptedStays | src/server/backend/partition.cpp:112-113 | after a failed write no more writes are made |
| UnnamedSync.Enumerate | src/server/backend/partition.cpp:110-118 | iterating a set visits each element once |
| UnnamedSync.WriteAll | src/server/backend/partition.cpp:110-124 | without stopping every write is made; stopping at the first failure, the result says whether all were made and the table shows those before it |
| UnnamedSync.GenlUpdate | src/server/backend/eventsource_genl.cpp:142-194 | an unreadable table counts as empty; the minors held but not wanted are removed, then the wanted but not held are added, failed writes skipped |
| UnnamedSync.PartitionUpdate | src/server/backend/partition.cpp:78-125 | false when the read fails, with nothing written; otherwise the same plan, stopping at the first failed write |
| UnnamedSync.MountManagerUpdate | src/server/src/core/mount_manager.cpp:171-229 | the same with unclipped writes and a blank listing read as the empty set |
| UnnamedSync.ShowLine | src/kernelmod/vfs_sysfs.c:21-48 | the kernel's listing holds one newline, at its end |
| UnnamedSync.ReadShown | src/server/backend/partition.cpp:87-95 | reading the listing back gives the held minors, plus the empty token when none is held |
| UnnamedSync.EmptySetUnreadable | src/server/src/core/mount_manager.cpp:190-193 | when the kernel holds no minor, the read as written fails |
| UnnamedSync.ApplyOne | src/kernelmod/vfs_sysfs.c:56-83 | one listed token sets or clears exactly its own minor |
| UnnamedSync.ApplyPhase | src/server/backend/partition.cpp:110-122 | a phase of same-letter writes sets or clears exactly the minors it names |
| UnnamedSync.Sync | src/server/backend/partition.cpp:100-125 | when every write succeeds, the kernel afterwards holds exactly the wanted minors |
| UnnamedSync.GenlSync | src/server/backend/eventsource_genl.cpp:175-194 | the event source's update, when every write succeeds, also leaves the kernel holding exactly the wanted minors |
| UnnamedSync.MountManagerSync | src/server/src/core/mount_manager.cpp:205-229 | with the corrected read, the mount manager's writes also leave the kernel holding exactly the wanted minors, the empty set included |
| MountTable.Kept | src/server/backend/lib/mountcacher.cpp:80-97 | the cached list keeps only real devices and dlnfs, each with its source as real device |
| MountTable.KeptExact | src/server/backend/lib/mountcacher.cpp:84-96 | an entry is cached exactly when its file system is in the table and listed |
| MountTable.FilterMounts | src/server/backend/lib/mountcacher.cpp:77-99 | the loop builds that list in table order |
| MountTable.Parent | src/server/backend/lib/mountcacher.cpp:143-151 | the walk's parent is the text before the last '/', or "/" |
| MountTable.ParentAbsolute | src/server/backend/lib/mountcacher.cpp:148-151 | the parent of an absolute path is absolute |
| MountTable.HasVirtualTarget | src/server/backend/lib/mountcacher.cpp:117-126 | the inner loop finds whether a virtual device is mounted at the point |
| MountTable.FindMountPoint | src/server/backend/lib/mountcacher.cpp:104-154 | the walk computes the climb: first reported mount point, passing virtual ones with `hardreal`, "/" at the root; so does the copy at src/server/src/core/mount_manager.cpp:117-159 |
| MountTable.ClimbToRoot | src/server/backend/lib/mountcacher.cpp:138-141 | with no mount point reported, the walk from an absolute path ends at "/" |
| MountTable.ClimbPassesVirtual | src/server/backend/lib/mountcacher.cpp:116-130 | with `hardreal`, the result is never a virtual device's mount point other than "/" |
| MountTable.PathMatchType | src/server/backend/lib/mountcacher.cpp:156-168 | true exactly when some entry of the type is mounted where the walk ends; so does the copy at src/server/src/core/mount_manager.cpp:161-169 |
| MountTable.LastAt | src/server/backend/lib/mountcacher.cpp:177-181 | the last entry mounted at a point, or none |
| MountTable.RootsExact | src/server/backend/lib/mountcacher.cpp:171-185 | the keys are the given points with something mounted, each mapped to the root of the last entry there |
| MountTable.GetRootsByPoints | src/server/backend/lib/mountcacher.cpp:171-200 | both loops build that map |
| MountTable.FirstAt | src/server/backend/lib/mountcacher.cpp:207-212 | the first entry mounted at a point, or none |
| MountTable.GetDeviceByPoint | src/server/backend/lib/mountcacher.cpp:203-214 | the real device of the first entry at the point, or the empty string |
| MountTable.WithRoot | src/server/backend/lib/mountcacher.cpp:223-228 | the entries kept all have the root and come from the list |
| MountTable.WithRootComplete | src/server/backend/lib/mountcacher.cpp:224-227 | every entry with the root is kept |
| MountTable.GetMountPointsByRoot | src/server/backend/lib/mountcacher.cpp:217-230 | the whole list for an empty or relative root, otherwise the entries with that root |
| MountTable.MountCacher.constructor | src/server/backend/lib/mountcacher.cpp:43-47 | the cache starts with a first update |
| MountTable.MountCacher.UpdateMountPoints | src/server/backend/lib/mountcacher.cpp:54-102 | the list is replaced only when the parse succeeds, whose result the method returns |
| MountInfo.DlnfsMinorsExact | src/server/backend/partition.cpp:46-49 | a minor is sent to the kernel exactly when some recorded dlnfs line has it |
| MountInfo.Scanned | src/server/backend/partition.cpp:36 | the loop reads the scan results up to the first line that does not yield five fields |
| MountInfo.PartitionsKeys | src/server/backend/partition.cpp:39-43 | a key is in the table exactly when some recorded line (listed, root "/") has it |
| MountInfo.PartitionsLast | src/server/backend/partition.cpp:43 | each key maps to the mount point of the last recorded line with it, since `insert` replaces |
| MountInfo.ScanPartitions | src/server/backend/partition.cpp:30-51 | the loop builds that table and the dlnfs minors from the lines before the first failed scan |
| MountInfo.Partition.constructor | src/server/backend/partition.cpp:7-10 | the table starts empty |
| MountInfo.Partition.Update | src/server/backend/partition.cpp:10-54 | false with nothing changed when mountinfo cannot be opened; otherwise the table is rebuilt and the dlnfs minors synchronised, stopping at the first failure |
| MountInfo.SeparatorFrom | src/server/include/anything/core/mount_manager.h:27 | the first "-" field from an index on, or none |
| MountInfo.InfoOf | src/server/src/core/mount_manager.cpp:32-39 | the root and mount point are fields 3 and 4 of the line split at spaces |
| MountInfo.MountsKeep | src/server/src/core/mount_manager.cpp:41 | `emplace` never changes an existing mapping and the map is never cleared |
| MountInfo.MountsKeys | src/server/src/core/mount_manager.cpp:36-44 | a key is in the new map exactly when it was in the old one or some recorded line has it |
| MountInfo.ParseLine | src/server/src/core/mount_manager.cpp:32-35 | the per-line parsing computes `InfoOf` |
| MountInfo.RecordMounts | src/server/src/core/mount_manager.cpp:31-45 | the line loop builds the new map and the dlnfs minors |
| MountInfo.RecordLine | src/server/src/core/mount_manager.cpp:36-44 | one line is added unless its key is already mapped, and a dlnfs line's minor is collected |
| MountInfo.MountManager.constructor | src/server/src/core/mount_manager.cpp:17-20 | the manager starts with a first `update_mount_points` and no device map |
| MountInfo.MountManager.ContainsDevice | src/server/src/core/mount_manager.cpp:51-53 | true exactly for a mapped device |
| MountInfo.MountManager.GetMountPoint | src/server/src/core/mount_manager.cpp:55-57 | the mount point mapped to the device |
| MountInfo.MountManager.UpdateMountPoints | src/server/src/core/mount_manager.cpp:64-115 | the list is replaced only after a successful parse, and the device map is untouched |
| MountInfo.MountManager.Update | src/server/src/core/mount_manager.cpp:22-49 | false with nothing changed when mountinfo cannot be opened; otherwise new recorded lines are added to the map and the dlnfs minors synchronised |
| MountInfo.TenthFieldMissesDlnfs | src/server/src/core/mount_manager.cpp:36-42 | a dlnfs line with one optional field has its type at index 8, so reading index 9 misses it |
| MountInfo.TypeFieldAgrees | src/server/src/core/mount_manager.cpp:36-42 | with two optional fields, reading after the separator gives what the code reads |
| MountInfo.TypeFieldAsWritten | src/server/src/core/mount_manager.cpp:36-42 | the tenth field is the type when the separator is the ninth field, and is the separator itself when the separator is the tenth |
| LftManager.PrefixIsToInt | src/server/backend/lib/lftmanager.cpp:1327-1332 | the two-digit reading of a rule's prefix is what `rule.left(4).toInt(&ok, 0)` gives |
| LftManager.RuleFlag | src/server/backend/lib/lftmanager.cpp:1327-1332 | a rule has a flag exactly when it is at least four characters, starts with "0x" and its prefix converts |
| LftManager.RuleArgs | src/server/backend/lib/lftmanager.cpp:1322-1325 | a string-valued flag (0x40 and above) has no numeric argument |
| LftManager.RuleArgsMeans | src/server/backend/lib/lftmanager.cpp:1320-1342 | the lookup succeeds exactly for a numeric flag some rule has, and gives the argument of the first such rule (0 when it does not convert) |
| LftManager.GetRuleArgs | src/server/backend/lib/lftmanager.cpp:1320-1342 | the loop gives that answer and leaves `valueReturn` alone when it fails |
| LftManager.RuleStrings | src/server/backend/lib/lftmanager.cpp:1351-1363 | at most one string per rule |
| LftManager.RuleStringsMeans | src/server/backend/lib/lftmanager.cpp:1351-1363 | a string is collected exactly when some rule has the flag and that text after its prefix |
| LftManager.RuleStringsEmpty | src/server/backend/lib/lftmanager.cpp:1350-1366 | nothing is collected exactly when no rule has the flag |
| LftManager.RuleStringsAppend | src/server/backend/lib/lftmanager.cpp:1351-1363 | the strings are collected in rule order |
| LftManager.GetRuleStrings | src/server/backend/lib/lftmanager.cpp:1344-1367 | true exactly for a string flag some rule has; the strings are appended to what the caller passed, which a numeric flag leaves alone |
| LftManager.Target | src/server/backend/lib/lftmanager.cpp:1381-1391 | the stored target is the Latin-1 text up to the first NUL |
| LftManager.Parsed | src/server/backend/lib/lftmanager.cpp:1374-1401 | at most one node per rule |
| LftManager.ParsedAppend | src/server/backend/lib/lftmanager.cpp:1374-1401 | the nodes follow the rules' order |
| LftManager.ParsedNone | src/server/backend/lib/lftmanager.cpp:1375-1402 | with no well-formed rule the list is empty |
| LftManager.ParsedHead | src/server/backend/lib/lftmanager.cpp:1394-1400 | the head of the list is the node of the first well-formed rule |
| LftManager.FlagByteOf | src/server/backend/lib/lftmanager.cpp:1380 | the node's flag is the prefix's value, cut to a byte |
| LftManager.Allocated | src/server/backend/lib/lftmanager.cpp:1385-1388 | a NULL `malloc` of node number `k` ends the list after its first `k` nodes; with no failure the list is whole |
| LftManager.ParsedPrefix | src/server/backend/lib/lftmanager.cpp:1374-1401 | the nodes built before a well-formed rule are a proper prefix of the whole list |
| LftManager.ParsedSnoc | src/server/backend/lib/lftmanager.cpp:1374-1376 | one more rule adds its node at the end exactly when it is well formed, and leaves the list as it was otherwise |
| LftManager.RuleNode | src/server/backend/lib/lftmanager.cpp:1378-1392 | the node of a well-formed rule carries the byte of the prefix's `toInt`, 0 when that fails, and the Latin-1 text after the prefix up to its first NUL |
| LftManager.ParseRules | src/server/backend/lib/lftmanager.cpp:1369-1404 | the loop builds that list up to the first failed `malloc`, and reports success exactly when it is non-empty with a head flag other than `RULE_NONE` |
| LftManager.DefaultsFrom | src/server/backend/lib/lftmanager.cpp:1411-1427 | at most one default per search flag |
| LftManager.SetRulesByDefault | src/server/backend/lib/lftmanager.cpp:1406-1431 | the caller's rules come last, after at most five defaults |
| LftManager.DefaultRuleParts | src/server/backend/lib/lftmanager.cpp:1412 | each default is a well-formed rule with its own flag and the value's decimal text |
| LftManager.DefaultReadsBack | src/server/backend/lib/lftmanager.cpp:1412-1416 | a default reads back through `_getRuleArgs`, the -1 of the maximum count as 0 |
| LftManager.RuleArgsAppend | src/server/backend/lib/lftmanager.cpp:1326-1338 | in a concatenation, the first part's answer wins |
| LftManager.OwnDefaultArgs | src/server/backend/lib/lftmanager.cpp:1411-1427 | the default written for a flag answers for that flag only |
| LftManager.DefaultsFromArgs | src/server/backend/lib/lftmanager.cpp:1411-1427 | the defaults answer exactly for the search flags from that one on that the rules do not set |
| LftManager.DefaultsFill | src/server/backend/lib/lftmanager.cpp:1406-1431 | after defaulting, every search flag answers: with the caller's value when set, otherwise with the default |
| LftManager.DefaultsFromFlag | src/server/backend/lib/lftmanager.cpp:1412-1426 | each default carries a search flag, 0x01 to 0x05 |
| LftManager.DefaultsKeepStrings | src/server/backend/lib/lftmanager.cpp:1429 | the string rules are unchanged by defaulting |
| LftManager.DefaultsParse | src/server/backend/lib/lftmanager.cpp:1369-1431 | when a search flag is missing, the parsed list starts with a search rule |
| LftManager.Subdirectories | src/server/backend/lib/lftmanager.cpp:532-535 | at most one entry per key |
| LftManager.SubdirectoriesMeans | src/server/backend/lib/lftmanager.cpp:525-538 | exactly the keys at or below the directory are listed |
| LftManager.OwnKeyListed | src/server/backend/lib/lftmanager.cpp:527-533 | a key lists itself with or without the trailing "/", and a sibling sharing its prefix is not listed |
| LftManager.HasLFTSubdirectories | src/server/backend/lib/lftmanager.cpp:525-538 | the loop computes that list in map order |
| LftManager.FsBufByPath | src/server/backend/lib/lftmanager.cpp:441-476 | a buffer is found exactly for an absolute path whose mount point is non-empty and indexed |
| LftManager.BufPathBelow | src/server/backend/lib/lftmanager.cpp:459-466 | a path below the mount point lands at the same place below the buffer's root |
| LftManager.BufPathAtMount | src/server/backend/lib/lftmanager.cpp:459-470 | the mount point itself maps to the root without its trailing "/" |
| LftManager.BufPathRootIdentity | src/server/backend/lib/lftmanager.cpp:459-470 | under "/" indexed at "/", an absolute path is its own buffer path |
| LftManager.GetFsBufByPath | src/server/backend/lib/lftmanager.cpp:441-476 | the function, with the mount point of the `hardreal` walk |
| LftManager.CpuStepBounded | src/server/backend/lib/lftmanager.cpp:1069-1101 | the counter stays within 0..2; limiting follows a high reading and unlimiting a low reading while limited |
| LftManager.CpuStepCounts | src/server/backend/lib/lftmanager.cpp:1076-1085 | a low reading while unlimited resets the counter; a reading outside the band counts up; one inside counts down to 0 |
| LftManager.ThreeHighLimits | src/server/backend/lib/lftmanager.cpp:1081-1093 | three high readings in a row always end limited |
| LftManager.ThreeLowUnlimits | src/server/backend/lib/lftmanager.cpp:1076-1097 | three low readings in a row always end unlimited |
| LftManager.TwoReadingsKeepLimit | src/server/backend/lib/lftmanager.cpp:1088 | from a reset counter, two readings never change the limit |
| LftManager.LftManager.constructor | src/server/backend/lib/lftmanager.cpp:985-1044 | the counter starts at 0, unlimited |
| LftManager.LftManager.CpuLimitCheck | src/server/backend/lib/lftmanager.cpp:1069-1101 | the method takes one `CpuStep` |
| LftManager.OpOf | src/server/backend/lib/lftmanager.cpp:166-174 | "insert:" pairs insert, "remove:" pairs remove, anything else renames the first path to the second |
| LftManager.AbsoluteIsRename | src/server/backend/lib/lftmanager.cpp:171-172 | a pair whose first part is an absolute path is a rename |
| LftManager.OnFileChanged | src/server/backend/lib/lftmanager.cpp:164-175 | one operation per pair, in order |
| LftDiskTool.ParseSerialUri | src/server/backend/lib/lftdisktool.cpp:73-86 | a uri parses exactly when it starts with "serial:", a non-empty block id free of '/' follows and a '/' comes later; the block id and the path starting with '/' give the uri back |
| LftDiskTool.ParseSerialText | src/server/backend/lib/lftdisktool.cpp:73-86 | "serial:" + id + path parses to that id and path whenever the id is non-empty and free of '/' and the path starts with '/' |
| LftDiskTool.MountRoot | src/server/backend/lib/lftdisktool.cpp:52-61 | the mount root put in a uri is never empty: "/" stands in when the mount cache knows none |
| LftDiskTool.SerialUri | src/server/backend/lib/lftdisktool.cpp:22-69 | a uri is produced only for a found mount point whose device is a real `/dev/` device other than a loop device or `/dev/fuse`, with a non-loop block device of non-empty id |
| LftDiskTool.SerialUriParses | src/server/backend/lib/lftdisktool.cpp:63-66 | a produced uri parses back to its block id and the mount root followed by the path's part below the mount point |
| LftDiskTool.PathToSerialUri | src/server/backend/lib/lftdisktool.cpp:22-69 | the method's uri is the one built from the mount point the cache's upward search finds for the path and the block device udisks lists the path itself as a mount point of |
| LftDiskTool.JoinAsWritten | src/server/backend/lib/lftdisktool.cpp:112-118 | a non-empty rest is appended after a '/' unless the mount point ends with one, whatever the rest starts with |
| LftDiskTool.Join | src/server/backend/lib/lftdisktool.cpp:112-118 | the corrected join: a '/' goes between the parts only when neither side supplies one |
| LftDiskTool.JoinRestores | src/server/backend/lib/lftdisktool.cpp:112-118 | joining a mount point with the rest of a path below it gives that path back: always with the corrected join, and with the join as written when nothing is left or the mount point ends with '/' |
| LftDiskTool.EntryMeans | src/server/backend/lib/lftdisktool.cpp:98-118 | a mount point is skipped exactly when its root is set and not a prefix of the path; otherwise its entry starts with the mount point, is the bare mount point when nothing is left, is the mount point and the rest when the mount point ends with '/', and otherwise has a '/' added at the seam, as written even when the rest starts with one |
| LftDiskTool.Located | src/server/backend/lib/lftdisktool.cpp:96-121 | the loop gives at most one path per mount point |
| LftDiskTool.LocatedMeans | src/server/backend/lib/lftdisktool.cpp:96-121 | a path is in the list exactly when some mount point's entry is that path |
| LftDiskTool.FirstWithId | src/server/backend/lib/lftdisktool.cpp:89-93 | the search finds the first block device with the id, and none exactly when no device has it |
| LftDiskTool.FromSerial | src/server/backend/lib/lftdisktool.cpp:71-126 | a malformed uri and an unknown block id give the empty list |
| LftDiskTool.MountPaths | src/server/backend/lib/lftdisktool.cpp:96-121 | the loop over one device's mount points computes the located paths with the join as written |
| LftDiskTool.FromSerialUri | src/server/backend/lib/lftdisktool.cpp:71-126 | the method computes what `fromSerialUri` returns, with the join as written |
| LftDiskTool.SerialUriOfBelow | src/server/backend/lib/lftdisktool.cpp:52-66 | for a path below its mount point with a known root, the uri parses to the block id and the root followed by the path after the mount point |
| LftDiskTool.LocatedHas | src/server/backend/lib/lftdisktool.cpp:98-118 | every entry a mount point gives is in the list |
| LftDiskTool.SerialRoundTrip | src/server/backend/lib/lftdisktool.cpp:22-126 | a path turned into a serial uri is among the paths that uri resolves to on its block device: with the corrected join for every path below the mount point, and with the join as written for the mount point itself or below a mount point ending with '/' |
| LftDiskTool.ByMountPoint | src/server/backend/lib/lftdisktool.cpp:39-42 | the udisks lookup finds a block device listing the path as a mount point, and none exactly when no device lists it |
| LftDiskTool.BindMountUri | src/server/backend/lib/lftdisktool.cpp:39-66 | the mount point "/deep" of a partition whose directory "/a/b" is mounted there gets the uri "serial:ID/a/b" |
| LftDiskTool.BindRoots | src/server/backend/lib/lftdisktool.cpp:94-95 | the mount cache gives "/mid" the root "/a" and "/deep" the root "/a/b" |
| LftDiskTool.BindResolve | src/server/backend/lib/lftdisktool.cpp:71-121 | "serial:ID/a/b" names the path "/a/b" on the partition whose mount points are "/mid" and "/deep" |
| LftDiskTool.BindEntries | src/server/backend/lib/lftdisktool.cpp:98-118 | "/mid" gives "/mid//b" as written and "/mid/b" with the corrected join; "/deep" gives "/deep" with both |
| LftDiskTool.BindMountAsWritten | src/server/backend/lib/lftdisktool.cpp:98-118 | with "/a" of the same partition mounted at "/mid", that uri resolves as written to "/mid//b" and "/deep" |
| LftDiskTool.BindMountCorrected | src/server/backend/lib/lftdisktool.cpp:98-118 | with the corrected join the same uri resolves to "/mid/b" and "/deep" |
| QtNumber.HexVal | src/server/backend/lib/lftmanager.cpp:1332-1334 | a digit's value agrees with its decimal value, and is below 16 exactly for a hexadecimal digit |
| QtNumber.TrimFront | src/server/backend/lib/lftmanager.cpp:1334 | the result is a suffix of the text, starts with no white space, and is the text itself when that starts with none |
| QtNumber.TrimBack | src/server/backend/lib/lftmanager.cpp:1334 | the result is a prefix of the text, ends with no white space, and is the text itself when that ends with none |
| QtNumber.Trim | src/server/backend/lib/lftmanager.cpp:1334 | the trimmed text is no longer, has no white space at either end, and is unchanged when it has none |
| QtNumber.Unsigned | src/server/backend/lib/lftmanager.cpp:1334 | a "0x" text reads as the hexadecimal value of its digits; a '-' sign makes the read fail |
| QtNumber.ToUInt | src/server/backend/lib/lftmanager.cpp:1334 | `toUInt(&ok, 0)` succeeds exactly when the trimmed text reads and fits 32 bits, and then gives that value |
| QtNumber.ValueInDecimal | src/server/backend/lib/lftmanager.cpp:1334 | base-10 reading of a digit string is its decimal value |
| QtNumber.UnsignedDecimal | src/server/backend/lib/lftmanager.cpp:1334 | the decimal text of a number reads back as that number |
| QtNumber.TrimDecimal | src/server/backend/lib/lftmanager.cpp:1334 | a decimal text has no surrounding white space |
| QtNumber.MinusFails | src/server/backend/lib/lftmanager.cpp:1334 | a text starting with '-' does not convert to unsigned |
| QtNumber.DecimalReadsBack | src/server/backend/lib/lftmanager.cpp:1412-1426 | the decimal text of a 32-bit value reads back as that value |
| QtNumber.HexDigit | src/server/backend/lib/lftmanager.cpp:1412-1426 | the digit written for d reads as d |
| QtNumber.Hex2 | src/server/backend/lib/lftmanager.cpp:1412-1426 | `arg(b, 2, 16, '0')` writes two hexadecimal digits that read back as the byte |
| QtNumber.IntTextReadsBack | src/server/backend/lib/lftmanager.cpp:1412-1426 | the text of an integer reads back through `toUInt` exactly when it is a 32-bit unsigned value |
| LftLayout.NextName | src/library/src/fs_buf.c:269-273 | the next name starts past the name, its NUL and a one-byte file tag or a four-byte directory tag |
| LftLayout.RelOff | src/library/src/fs_buf.c:293-297 | the offset a tag stores, its two flag bits dropped, is below 2^30 |
| LftLayout.KidsOffset | src/library/src/fs_buf.c:424-436 | the children of a name are 0 (a file or no children) or lie after the name |
| LftLayout.DirTagDecode | src/library/src/fs_buf.c:275-284 | a relative offset below 2^30 survives the directory tag encoding, and the tag's low byte never reads as the file tag |
| LftLayout.SetKidsOff | src/library/src/fs_buf.c:275-284 | storing a children offset keeps the buffer's size |
| LftLayout.KidsRoundTrip | src/library/src/fs_buf.c:275-284 | after `do_set_kids_off` the name is unchanged, it reads as a directory, and `get_kids_offset` gives the stored offset back |
| LftLayout.SetParentOffset | src/library/src/fs_buf.c:189-201 | writing a parent tag keeps the buffer's size |
| LftLayout.ParentRoundTrip | src/library/src/fs_buf.c:189-201 | after `set_parent_offset` the entry is an empty name whose tag gives the parent back (0 for the root) |
| LftLayout.FolderTail | src/library/src/fs_buf.c:556-569 | a found folder tail is an empty name at or after the start and before `tail` |
| LftLayout.LastSlash | src/library/src/fs_buf.c:647 | the index found holds a '/' with none after it; none is found exactly when the path has no '/' |
| LftLayout.VisitName | src/library/src/fs_buf.c:455-471 | one pass of the lookup loop either moves forward in the buffer and the path, or stops; a non-zero stop is a non-empty name matching the path up to its end |
| LftLayout.WalkBounds | src/library/src/fs_buf.c:453-473 | the loop finds 0 or a non-empty name between its start and `tail` |
| LftLayout.WalkSuffix | src/library/src/fs_buf.c:453-473 | what the loop finds in a C-string path is the path's last component |
| LftLayout.WalkFinds | src/library/src/fs_buf.c:453-473 | the walk's answer is a non-empty name before `tail` that, for a C-string path, is a suffix of the path |
| LftLayout.MatchEndsPath | src/library/src/fs_buf.c:466-469 | a name matching the path up to its end is the path's last component |
| LftLayout.FindWalks | src/library/src/fs_buf.c:438-474 | past the root prefix, `do_get_path_offset` is the walk from the first name |
| LftLayout.FindFinds | src/library/src/fs_buf.c:438-474 | `do_get_path_offset` gives 0, DATA_START, or a non-empty name after the root that ends the path |
| LftLayout.FallbackIsCString | src/library/src/fs_buf.c:480-494 | the fallback path with its trailing '/' removed or added is still a C string |
| LftLayout.LookupFindsSuffix | src/library/src/fs_buf.c:476-499 | `get_path_offset` gives 0, DATA_START, or a name ending the path or, in the current copy only, ending its fallback; the older copy, library/src/fs_buf.c:378-414, has no fallback, so its answer ends the path itself |
| LftLayout.LookupRange | src/library/src/fs_buf.c:476-499 | a lookup gives 0, DATA_START, or a non-empty name between the first name and `tail` |
| LftLayout.RootLookup | src/library/src/fs_buf.c:440-451 | the root path itself is found at DATA_START in both copies |
| LftLayout.RootLookupWithoutSlash | src/library/src/fs_buf.c:476-499 | in the current copy the root without its trailing '/' is found at DATA_START through the fallback |
| LftBuffer.BlockRound | src/library/src/fs_buf.c:173-176 | the growth is a whole number of 1 MiB blocks, at least the size asked for and less than one block more |
| LftBuffer.InsertedEntry | src/library/src/fs_buf.c:203-230 | the entry `insert_new_name` writes reads back with its name, its kind and no children, and `next_name` skips exactly the name, its NUL and its tag |
| LftBuffer.MoveUp | src/library/src/fs_buf.c:212-213 | the bytes before the insertion point stay, and those from it up to the tail move up by the size inserted |
| LftBuffer.CopyName | src/library/src/fs_buf.c:215-216 | the name and its NUL are written at the insertion point and nothing else changes |
| LftBuffer.StoreTag | src/library/src/fs_buf.c:218-226 | a directory gets the four-byte FS_TAG_DIR and a file the one-byte FS_TAG_FILE, and nothing else changes |
| LftBuffer.InsertSteps | src/library/src/fs_buf.c:212-226 | the move, the name copy and the tag store together leave the old bytes before the point, the entry at the point and the old rest moved up by the entry's size |
| LftBuffer.NameAt | src/library/src/fs_buf.c:212-226 | the three writes of `insert_new_name` keep the buffer's length |
| LftBuffer.NameAtInserted | src/library/src/fs_buf.c:212-226 | whatever buffer they start from, the three writes insert the name and its tag at the offset and move the rest up |
| LftBuffer.InsertedOnPrefix | src/library/src/fs_buf.c:207-213 | growing the buffer first does not change what the insertion does to the bytes up to the tail |
| LftBuffer.Room | src/library/src/fs_buf.c:207-210 | `add_capacity` keeps the old bytes as a prefix, leaves room for the size past the tail, and stays within 2^30 bytes whenever it succeeds |
| LftBuffer.RoomNameInserted | src/library/src/fs_buf.c:203-230 | on the grown buffer, `insert_new_name` places the entry at the offset with the old bytes around it as `Inserted` describes |
| LftBuffer.KidsShift | src/library/src/fs_buf.c:593-605 | `UPDATE_KIDS_OFF` keeps the buffer's length |
| LftBuffer.KidsShiftFrame | src/library/src/fs_buf.c:593-605 | `UPDATE_KIDS_OFF` changes only the four bytes of the entry's children offset and the five bytes of the parent tag closing the moved list |
| LftBuffer.KidsShiftReadsBack | src/library/src/fs_buf.c:596-603 | after `UPDATE_KIDS_OFF` the entry keeps its name, its children offset is the old one plus the delta, and the list it now points to closes with a parent tag naming the entry |
| LftBuffer.ShiftSiblings | src/library/src/fs_buf.c:617-621 | the sibling loop keeps the buffer's length |
| LftBuffer.ShiftAncestors | src/library/src/fs_buf.c:627-642 | the climb through the ancestors keeps the buffer's length |
| LftBuffer.Offsets | src/library/src/fs_buf.c:607-643 | `update_offsets` keeps the buffer's length |
| LftBuffer.OffsetsWithSiblings | src/library/src/fs_buf.c:611-624 | with siblings to update, `update_offsets` runs the sibling loop from the first sibling and then climbs from the parent of the starting entry |
| LftBuffer.OffsetsWithoutKids | src/library/src/fs_buf.c:593-643 | in a buffer where no entry has children, `update_offsets` changes nothing |
| LftBuffer.Linked | src/library/src/fs_buf.c:680-691 | the linking of a new entry keeps the buffer's length |
| LftBuffer.LinkedOpensList | src/library/src/fs_buf.c:682-688 | the first child of an empty folder becomes the folder's children, and the parent tag after it names the folder; the folder keeps its name |
| LftBuffer.LinkedClosesList | src/library/src/fs_buf.c:689-691 | a name added at the end of a list leaves the list's closing tag naming the parent |
| LftBuffer.Unlinked | src/library/src/fs_buf.c:757-771 | relinking before a removal keeps the buffer's length |
| LftBuffer.UnlinkedEmptiesParent | src/library/src/fs_buf.c:760-766 | removing an only child clears the parent's children offset and keeps its name |
| LftBuffer.UnlinkedPointsPastCut | src/library/src/fs_buf.c:767-771 | otherwise the closing tag of the list is made a parent tag whose parent offset and relative offset both point to the parent plus the cut size |
| LftBuffer.Cut | src/library/src/fs_buf.c:773-775 | the bytes before the cut stay and those after it, up to the tail, move down by its size |
| LftBuffer.CutMovesTag | src/library/src/fs_buf.c:773-775 | a parent tag past the cut moves down by the cut size with its relative offset unchanged, which is what the relinking before the cut prepares |
| LftBuffer.Placed | src/library/src/fs_buf.c:859-864 | the bytes before the offset stay, the subtree is written at it, and the old bytes from it up to the tail move up by the subtree's size |
| LftBuffer.PathInsert | src/library/src/fs_buf.c:645-703 | `insert_path` keeps the buffer within its bounds and reports one change; on an error the buffer, the tail and the change are untouched |
| LftBuffer.InsertAt | src/library/src/fs_buf.c:676-693 | the second half of `do_insert_path` fails only with ERR_NO_MEM and then leaves the buffer as it was |
| LftBuffer.PathInsertErrors | src/library/src/fs_buf.c:645-695 | ERR_NO_PATH, ERR_PATH_EXISTS, the corruption error and ERR_NO_MEM each arise exactly under their conditions, in that order; success reports a change at the insertion place whose delta, the entry's size plus a parent tag for an empty folder, is what the tail grew by |
| LftBuffer.PathInsertChecked | src/library/src/fs_buf.c:645-678 | once the checks pass, `do_insert_path` is the insertion at the place the lookup found |
| LftBuffer.NodeRemove | src/library/src/fs_buf.c:756-788 | removing one entry either fails with the corruption error, leaving the buffer alone, or lowers the tail and reports one shrinking change at the entry |
| LftBuffer.NodeCut | src/library/src/fs_buf.c:767-787 | the relink, the cut and the offset update lower the tail by exactly the cut size and report that change at the entry |
| LftBuffer.EntryRemove | src/library/src/fs_buf.c:735-788 | removing an entry and its subtree keeps the buffer within its bounds, and any saved subtree comes from the tree |
| LftBuffer.KidsRemove | src/library/src/fs_buf.c:736-754 | cutting a directory's subtree and then its entry keeps the buffer within its bounds, saving the subtree's bytes when asked |
| LftBuffer.EntryRemoveChanges | src/library/src/fs_buf.c:735-788 | the result is success, ERR_NO_MEM (only when the subtree copy was wanted and failed, leaving the buffer alone) or the corruption error; the tail moves by the sum of the changes, and on success one or two shrinking changes end at the entry |
| LftBuffer.KidsRemoveChanges | src/library/src/fs_buf.c:736-788 | after a subtree cut the tail moves by the sum of the changes, and on success there are two: the subtree and then the entry |
| LftBuffer.PathRemove | src/library/src/fs_buf.c:718-797 | `remove_path` keeps the buffer's size and bounds, and any saved subtree comes from the tree |
| LftBuffer.PathRemoveChanges | src/library/src/fs_buf.c:718-797 | ERR_NO_PATH exactly when the lookup fails, leaving the buffer alone; removing the root empties the tree in one change, saving it when asked, or fails with ERR_NO_MEM when that copy fails; otherwise one or two shrinking changes end at the entry; the tail always moves by the sum of the changes |
| LftBuffer.TreeCopy | src/library/src/fs_buf.c:848-873 | copying the subtree back reports one change; it is success, ERR_NO_MEM or the corruption error, a failure leaves the tail alone, and the tail moves by the change |
| LftBuffer.PathRename | src/library/src/fs_buf.c:801-876 | `rename_path` keeps the buffer within its bounds |
| LftBuffer.RenameInsert | src/library/src/fs_buf.c:839-844 | inserting the target keeps the buffer within its bounds |
| LftBuffer.RenameCopy | src/library/src/fs_buf.c:846-873 | copying the saved subtree under the target keeps the buffer within its bounds |
| LftBuffer.RenameInsertDelta | src/library/src/fs_buf.c:839-844 | the target's insertion is counted as a change whatever its result, and the tail still moves by the sum of the changes |
| LftBuffer.RenameCopyDelta | src/library/src/fs_buf.c:846-873 | the copy back ends in success, ERR_NO_MEM or the corruption error, and the tail moves by the sum of the changes |
| LftBuffer.PathRenameChanges | src/library/src/fs_buf.c:801-876 | a failed check returns its code with the buffer, the tail and the change list untouched; otherwise the result is success, ERR_NO_MEM or the corruption error, and the tail moves by the sum of the changes |
| LftBuffer.FsBuf.constructor | src/library/src/fs_buf.c:119-131 | a new buffer holds the root path and its NUL at DATA_START and an empty tree, with the tail and first name just past the root |
| LftBuffer.NewFsBuf | src/library/src/fs_buf.c:98-132 | `new_fs_buf` fails exactly for a capacity above 2^30, a missing root, a root that leaves less than 1 MiB, a root not starting and ending with '/', or a failed `malloc` or lock set-up; otherwise the new buffer has the capacity asked for, holds the root, and its first name and tail follow the root's NUL |
| LftBuffer.FsBuf.AddCapacity | src/library/src/fs_buf.c:171-187 | it fails with 1, leaving the buffer unchanged, exactly when the rounded growth would pass 2^30 bytes or `realloc` fails; otherwise the buffer is the old one followed by the rounded number of zero bytes |
| LftBuffer.FsBuf.InsertNewName | src/library/src/fs_buf.c:203-230 | ERR_NO_MEM exactly when the growth fails, leaving the buffer alone; otherwise the tail grows by the entry's size and the buffer is the grown one with the name and its tag written in at the offset |
| LftBuffer.FsBuf.AppendNewName | src/library/src/fs_buf.c:232-238 | the entry is inserted at the old tail, or nothing changes on ERR_NO_MEM |
| LftBuffer.FsBuf.AppendParent | src/library/src/fs_buf.c:240-254 | a five-byte parent tag is added at the tail, an empty name pointing back at the parent; nothing changes on ERR_NO_MEM |
| LftBuffer.FsBuf.DoGetPathOffset | src/library/src/fs_buf.c:438-474 | the loop computes the lookup the walk specifies |
| LftBuffer.FsBuf.GetPathOffset | src/library/src/fs_buf.c:476-499 | the method gives the lookup with the fallback retry: 0, DATA_START or a name in the tree; the older copy, library/src/fs_buf.c:378-414, has no retry |
| LftBuffer.WalkNames | src/library/src/fs_buf.c:453-473 | the loop computes the walk |
| LftBuffer.VisitAt | src/library/src/fs_buf.c:455-471 | one pass of the loop computes the visit step |
| LftBuffer.FsBuf.GetFolderTailOffset | src/library/src/fs_buf.c:556-569 | the loop finds the folder tail the specification gives |
| LftBuffer.FsBuf.GetParentOffset | src/library/src/fs_buf.c:571-582 | the method finds the parent the list's closing tag names |
| LftBuffer.FsBuf.Get1stSiblingOffset | src/library/src/fs_buf.c:584-591 | the first sibling is the first name under the root, or the parent's children offset |
| LftBuffer.FsBuf.GetTreeEndOffset | src/library/src/fs_buf.c:501-527 | the loop computes the end of the subtree the specification gives |
| LftBuffer.FsBuf.GetInsertOffset | src/library/src/fs_buf.c:530-554 | the loop computes the insertion point for an empty folder's first child |
| LftBuffer.FsBuf.ScanSiblings | src/library/src/fs_buf.c:661-669 | the scan reports whether the list holds the name, and otherwise where the list ends |
| LftBuffer.FsBuf.UpdateKidsOff | src/library/src/fs_buf.c:593-605 | the new buffer is `KidsShift` of the old one (its bytes as KidsShiftFrame and KidsShiftReadsBack give them), and a name without children is left alone |
| LftBuffer.FsBuf.ShiftSiblingKids | src/library/src/fs_buf.c:617-621 | the new buffer is the sibling loop applied to the old one |
| LftBuffer.FsBuf.AncestorStep | src/library/src/fs_buf.c:627-642 | one pass of the climb either ends it with the climb's result or leaves a state from which the climb gives the same result, with less fuel or a later offset |
| LftBuffer.FsBuf.ClimbStep | src/library/src/fs_buf.c:629-636 | at a parent tag the climb ends at the root or goes on from the parent with one unit of fuel less, and gives the same result |
| LftBuffer.FsBuf.ShiftStep | src/library/src/fs_buf.c:639-641 | at a name the climb updates it if it lies past the start and goes on from the next name, with the same result |
| LftBuffer.FsBuf.ShiftAncestorKids | src/library/src/fs_buf.c:627-642 | the new buffer is the climb applied to the old one |
| LftBuffer.FsBuf.UpdateOffsets | src/library/src/fs_buf.c:607-643 | the new buffer is `Offsets` of the old one, with the tail, capacity and first name kept |
| LftBuffer.FsBuf.FindParent | src/library/src/fs_buf.c:647-655 | ERR_NO_PATH exactly when the path has no last component or its parent is missing or a file |
| LftBuffer.FsBuf.FindPlace | src/library/src/fs_buf.c:657-673 | the name is found exactly when the parent's list holds it; otherwise the place is the list's end or, for an empty folder, the insertion point |
| LftBuffer.FsBuf.CheckInsert | src/library/src/fs_buf.c:645-673 | the error codes of `do_insert_path` before it changes anything: ERR_NO_PATH, ERR_PATH_EXISTS, or an out-of-range place, each exactly when its condition holds |
| LftBuffer.FsBuf.InsertPath | src/library/src/fs_buf.c:645-703 | the error, the new buffer, the new tail and the change are exactly `PathInsert` of the old buffer, whose errors and delta PathInsertErrors states; an error keeps the capacity |
| LftBuffer.FsBuf.AddName | src/library/src/fs_buf.c:676-693 | the error, the new buffer, the tail and the change are exactly `InsertAt` of the old buffer |
| LftBuffer.FsBuf.LinkNewName | src/library/src/fs_buf.c:680-693 | the new buffer is `Linked` of the old one, and the delta reported is the entry's size plus five bytes when it opened an empty folder |
| LftBuffer.FsBuf.RemoveKids | src/library/src/fs_buf.c:736-754 | the directory's children offset is cleared, its subtree is cut out, the offsets are updated, and the tail drops by the subtree's size |
| LftBuffer.FsBuf.RemoveNode | src/library/src/fs_buf.c:756-788 | the error, the new buffer and the tail are exactly `NodeRemove` of the old buffer; the corruption error leaves the buffer alone, and success lowers the tail by at least the entry's own size |
| LftBuffer.FsBuf.CutNode | src/library/src/fs_buf.c:767-787 | the new buffer and tail are exactly `NodeCut` of the old ones |
| LftBuffer.FsBuf.UnlinkNode | src/library/src/fs_buf.c:757-771 | the new buffer is `Unlinked` of the old one, with the tail kept |
| LftBuffer.FsBuf.CutBytes | src/library/src/fs_buf.c:773-775 | the bytes after the cut move down to it and the tail drops by its size |
| LftBuffer.FsBuf.RemovePath | src/library/src/fs_buf.c:718-797 | the error, the new buffer, the tail, the changes and the saved subtree are exactly `PathRemove` of the old buffer, whose errors and changes PathRemoveChanges states |
| LftBuffer.FsBuf.RemoveEntry | src/library/src/fs_buf.c:735-788 | the result is exactly `EntryRemove` of the old buffer |
| LftBuffer.FsBuf.RemoveDir | src/library/src/fs_buf.c:736-754 | the result is exactly `KidsRemove` of the old buffer |
| LftBuffer.FsBuf.CheckRename | src/library/src/fs_buf.c:807-830 | the method gives the error code the rename checks specify, the target's offset and the source's kind; the older copy, library/src/fs_buf.c:718-745, also refuses a target that starts with the source |
| LftBuffer.FsBuf.PlaceTree | src/library/src/fs_buf.c:859-864 | the new buffer is the old one with the subtree placed at the offset and the rest moved up, and the tail grows by its size |
| LftBuffer.FsBuf.CopyBack | src/library/src/fs_buf.c:848-873 | the result is exactly `TreeCopy` of the old buffer; ERR_NO_MEM leaves the buffer alone, and success grows the tail and the change by the subtree's size at an offset within the old tail |
| LftBuffer.FsBuf.RenamePath | src/library/src/fs_buf.c:801-907 | the error, the new buffer, the tail and the changes are exactly `PathRename` of the old buffer, whose errors and delta PathRenameChanges states; a failed check keeps the capacity |
| LftBuffer.FsBuf.GetPathRange | src/library/src/fs_buf.c:878-899 | a missing path has an empty range, the root ranges over the whole tree, and a directory over its subtree |
| LftBuffer.FsBuf.SearchFiles | src/library/src/fs_buf.c:909-934 | the results are exactly the matching names from the start up to where the scan stopped, increasing and within the size; the scan stops early only when the progress callback asks; the older copy, library/src/fs_buf.c:818-837, has no progress callback and counts a name whose comparator returns non-zero |
| LftBuffer.ScanNames | src/library/src/fs_buf.c:917-931 | the loop collects exactly the matching names on the chain it walks, in increasing order and within the size |
| LftSpec.TreeEnd | src/library/src/fs_buf.c:501-527 | the end of a subtree is `tail`, or lies just past a parent tag (an empty name and its four-byte tag) |
| LftSpec.InsertOffsetIsKids | src/library/src/fs_buf.c:530-554 | the insertion point for an empty folder is `tail` or the child list of a name stored before `tail` |
| LftSpec.ListEnd | src/library/src/fs_buf.c:663-668 | the sibling scan stops at or after its start, on a parent tag or past the data |
| LftSpec.HasSiblingMeans | src/library/src/fs_buf.c:663-668 | the scan reports ERR_PATH_EXISTS exactly when some name of the parent's list equals the new name |
| LftSpec.OnChain | src/library/src/fs_buf.c:917-931 | a name reached by repeated `next_name` lies at or after the start |
| LftSpec.OnChainSnoc | src/library/src/fs_buf.c:930 | the chain goes on through `next_name` |
| LftSpec.HitsSnoc | src/library/src/fs_buf.c:925-930 | one step of the scan appends the name it visits exactly when the name is recorded |
| LftSpec.HitsProps | src/library/src/fs_buf.c:917-931 | the recorded offsets increase, lie between the scan's ends, and each is a recorded name |
| LftSpec.TotalDeltaAppend | src/library/src/fs_buf.c:785-787 | recording one more change adds its delta to the sum |
| LftSpec.SplitAt | src/library/src/fs_buf.c:647-649 | the split point is a '/' with a non-empty, slash-free last component after it, and there is none exactly when the path has no '/' or ends with one |
| LftSpec.LastName | src/library/src/fs_buf.c:665 | the new entry's name is a slash-free suffix of the path, a C string, and non-empty when the path splits |
| LftSpec.RenameFileParentPassesAsWritten | src/library/src/fs_buf.c:829-830 | the written test lets through a target whose parent is an ordinary file, which the insert rule refuses with ERR_NO_PATH |
| LftSpec.RenameChecksDisagree | src/library/src/fs_buf.c:807-830 | the written and the corrected checks differ exactly when the entry checks pass, the target splits, and its parent exists with a tag byte that reads as a file |
| LftSpec.LegacyRefusesLongerName | library/src/fs_buf.c:718-719 | the older copy refuses renaming "/a.txt" to "/a.txts" whatever the buffer holds |
| LftSpec.RenameCheck | src/library/src/fs_buf.c:807-830 | the corrected checks give 0 or one of the four error codes, and 0 only when the source exists, the target is not the root and the target's parent exists as the root or a directory |
| LftSpec.RenameCheckAsWritten | src/library/src/fs_buf.c:807-830 | the checks as written give 0 or one of the four error codes, and 0 only when the source exists, the target is not the root, has a parent name and its parent exists |
| LftRules.HasKindMeans | src/library/src/fs_buf.c:949-977 | the list has a rule of a kind exactly when one of its rules' flags is filed under that kind |
| LftRules.MaskBits | src/library/src/fs_buf.c:959-970 | the mask holds the SEARCH_RULE, EXCLUDE_RULE and INCLUDE_RULE bits exactly for the kinds present, and is at most SEARCH_RULE exactly when no filter kind is present |
| LftRules.OrKindStep | src/library/src/fs_buf.c:959-970 | or-ing a kind into the mask sets that kind's bit and no other |
| LftRules.SelectedMeans | src/library/src/fs_buf.c:979-999 | a rule is copied exactly when it is in the list and picked for the kind asked for |
| LftRules.UnknownFlagSelected | src/library/src/fs_buf.c:950-980 | a rule with an unknown flag keeps `find == -1`, which is true, so it is copied into whatever list is asked for |
| LftRules.GetRules | src/library/src/fs_buf.c:939-1006 | no list gives INVALID_RULE and writes no copy; otherwise the result is the mask of the kinds present and the copy is the picked rules in their order; when a copy's `malloc` fails, the result is the mask of the rules up to the one being copied and no copy is written |
| LftRules.SelectedGrows | src/library/src/fs_buf.c:979-999 | the copy of a prefix of the list is never longer than the copy of the whole list |
| LftRules.GetRuleValue | src/library/src/fs_buf.c:1008-1022 | the value is "0" for an empty list or one whose first rule has no flag, and otherwise the target of the first rule with the flag, or "0" when none has it |
| LftRules.CheckName | src/library/src/fs_buf.c:1024-1055 | 0 exactly when the list is non-empty, its first rule has a flag, and some rule matches the name by equality, prefix or suffix as its flag says; -1 otherwise |
| LftRules.IsRegex | src/library/src/fs_buf.c:1165-1184 | a query is a regular expression exactly when it holds one of `$()*+.?[\^{|` |
| LftRules.PickScan | src/library/src/fs_buf.c:1082-1090 | the jump the scan records lies among the jumps already scanned |
| LftRules.Pick | src/library/src/fs_buf.c:1074-1100 | the jump taken is one of the list's |
| LftRules.PickScanMeans | src/library/src/fs_buf.c:1079-1090 | midway, no jump is held exactly when every jump scanned so far is used or starts after the name; a held jump is unused, starts at or before the name, no later than any other unused jump, and is the last with that start |
| LftRules.PickMeans | src/library/src/fs_buf.c:1074-1100 | `should_jump` takes no jump exactly when every jump is used or starts after the name; otherwise it takes the last unused jump with the least start, which is at or before the name |
| LftRules.TakenOnce | src/library/src/fs_buf.c:1093-1096 | a jump marked as used is never taken again |
| LftRules.JumpList.constructor | src/library/src/fs_buf.c:1076-1077 | a new jump list is empty |
| LftRules.JumpList.AddJump | src/library/src/fs_buf.c:1057-1071 | an unused jump over the subtree is appended, and the list is unchanged when the link's `malloc` fails |
| LftRules.JumpList.ShouldJump | src/library/src/fs_buf.c:1074-1100 | -1 with the list unchanged exactly when no jump applies; otherwise 0, the picked jump's end, and that jump marked used |
| LftRules.TakeSnoc | src/library/src/fs_buf.c:1240-1242 | saving results while fewer than the limit are stored appends the new one, and afterwards keeps the list |
| LftRules.SearchThread | src/library/src/fs_buf.c:1215-1256 | the count is the number of matching names on the walked chain, the first `req_results` of them are saved in order, and the scan stops only at the end or, with a positive maximum, on reaching it, when the next start is recorded |
| Pinyin.CharLength | src/server/src/core/pinyin_processor.cpp:130-136 | the announced length is 1 to 4, and 2, 3 or 4 exactly for the lead-byte ranges 0xC0-0xDF, 0xE0-0xEF and 0xF0-0xF7 |
| Pinyin.CharLengthMasks | src/server/src/core/pinyin_processor.cpp:130-136 | the length agrees with the source's mask tests on the byte |
| Pinyin.PieceLength | src/server/src/core/pinyin_processor.cpp:172-173 | a piece is non-empty, no longer than announced, and shorter only when it runs to the end of the sentence |
| Pinyin.PiecesConcat | src/server/src/core/pinyin_processor.cpp:166-178 | the pieces laid end to end give the sentence back |
| Pinyin.PiecesShape | src/server/src/core/pinyin_processor.cpp:171-175 | every piece is non-empty and at most its announced length, and every piece but the last has exactly that length |
| Pinyin.PiecesStep | src/server/src/core/pinyin_processor.cpp:171-175 | the pieces of a suffix are its head piece followed by the pieces of the rest |
| Pinyin.PieceAt | src/server/src/core/pinyin_processor.cpp:172-173 | the length taken at `i` is the head piece's length and stays inside the sentence |
| Pinyin.SplitUtf8Characters | src/server/src/core/pinyin_processor.cpp:166-178 | the loop returns exactly the pieces |
| Pinyin.HexToDec | src/server/src/core/pinyin_processor.cpp:114-128 | the loop computes the unsigned value of the text |
| Pinyin.HexDecValue | src/server/src/core/pinyin_processor.cpp:114-128 | on hexadecimal digits the result is their base-16 value modulo 2^32 |
| Pinyin.NonHexShifts | src/server/src/core/pinyin_processor.cpp:117-124 | a character that is not a hexadecimal digit still multiplies the value by 16, modulo 2^32 |
| Pinyin.ToneFree | src/server/src/core/pinyin_processor.cpp:139-147 | only a two-byte character is in the tone table, and it maps to one of a, e, i, o, u, v |
| Pinyin.UntonedPieces | src/server/src/core/pinyin_processor.cpp:149-163 | `remove_tone` replaces each of the pieces the split cuts by its plain form |
| Pinyin.UntonedStep | src/server/src/core/pinyin_processor.cpp:150-161 | removing tones from a suffix handles its head piece and then the rest |
| Pinyin.ToneLookup | src/server/src/core/pinyin_processor.cpp:153-158 | the table gives the plain vowel for a toned one and keeps any other piece |
| Pinyin.RemoveTone | src/server/src/core/pinyin_processor.cpp:138-164 | the loop computes the untoned text |
| Pinyin.UntonedIdentity | src/server/src/core/pinyin_processor.cpp:138-164 | a text with no toned vowel is left unchanged |
| Pinyin.UntonedVowel | src/server/src/core/pinyin_processor.cpp:153-155 | a toned vowel at the front becomes its plain letter and the rest is converted on its own |
| Pinyin.UntonedShorter | src/server/src/core/pinyin_processor.cpp:138-164 | removing tones never lengthens a text |
| Pinyin.Initial | src/server/src/core/pinyin_processor.cpp:70-71 | the first character of a reading is a prefix of it of at most four bytes, non-empty for a non-empty reading |
| Pinyin.ScannedTail | src/server/src/core/pinyin_processor.cpp:58-91 | the scan builds the acronym from each dictionary character's first letter and the spelled sentence from its untoned reading, keeping other characters |
| Pinyin.ConvertedEnds | src/server/src/core/pinyin_processor.cpp:109-111 | the conversion ends with a space, the acronym, a space and the spelled sentence |
| Pinyin.ScannedPlain | src/server/src/core/pinyin_processor.cpp:77-90 | characters outside the dictionary are copied to all three texts and open no phrase group |
| Pinyin.ConvertedPlain | src/server/src/core/pinyin_processor.cpp:49-112 | a sentence with no dictionary character converts to itself three times, separated by spaces |
| Pinyin.Utf8 | src/server/src/core/pinyin_processor.cpp:34-36 | an encoded code point is 1 to 4 bytes, its lead byte announces its length and the rest are continuation bytes |
| Pinyin.Utf8Piece | src/server/src/core/pinyin_processor.cpp:171-175 | an encoded character is one piece of any sentence it starts |
| Pinyin.ParseLine | src/server/src/core/pinyin_processor.cpp:27-46 | only a line starting with "U+" and holding ':' is used; a code point above U+10FFFF makes it unencodable; otherwise it gives an entry only when it also holds '#', and an entry has at least one reading |
| Pinyin.ParsedLines | src/server/src/core/pinyin_processor.cpp:27 | each line is read on its own |
| Pinyin.LoadedHead | src/server/src/core/pinyin_processor.cpp:27-46 | an unencodable line, where `to_bytes` throws, ends the load with the dictionary as it stands; any other line either leaves the dictionary alone or, if its character is new, adds that entry |
| Pinyin.LoadedWellFormed | src/server/src/core/pinyin_processor.cpp:41-42 | a dictionary loaded from lines gives every character at least one reading, so `it->second[0]` exists |
| Pinyin.LoadedKeeps | src/server/src/core/pinyin_processor.cpp:41 | `emplace` never replaces an entry already present |
| Pinyin.LoadedFrom | src/server/src/core/pinyin_processor.cpp:41-42 | every new entry comes from a line that parsed to it |
| Pinyin.ScanCharacters | src/server/src/core/pinyin_processor.cpp:58-91 | the first loop computes the scan |
| Pinyin.AppendWords | src/server/src/core/pinyin_processor.cpp:100-105 | the loop over one group's words computes the words and their acronym |
| Pinyin.AppendPhrases | src/server/src/core/pinyin_processor.cpp:97-107 | the loop over the groups computes the phrases |
| Pinyin.PinyinProcessor.constructor | src/server/include/core/pinyin_processor.h:20 | a default processor has an empty dictionary |
| Pinyin.PinyinProcessor.FromFile | src/server/src/core/pinyin_processor.cpp:16-18 | no processor is made exactly when loading throws; otherwise the new processor holds what loading its lines gives, or nothing when the file cannot be opened |
| Pinyin.PinyinProcessor.LoadPinyinDict | src/server/src/core/pinyin_processor.cpp:20-47 | loading throws exactly when some line has an unencodable code point; it adds the entries of the lines before that line, or of all lines, to the dictionary, and changes nothing when the file cannot be opened |
| Pinyin.PinyinProcessor.ConvertToPinyin | src/server/src/core/pinyin_processor.cpp:49-112 | the method computes the conversion |
| StringHelper.FindFrom | src/server/include/utils/string_helper.h:17 | the index found from `i` is the first occurrence at or after `i`, and none is found exactly when there is none |
| StringHelper.Find | src/server/include/utils/string_helper.h:39 | `find` succeeds exactly when the text holds the needle, at its first occurrence |
| StringHelper.SplitSpec | src/server/include/utils/string_helper.h:13-25 | `split` gives at least one token |
| StringHelper.Split | src/server/include/utils/string_helper.h:13-25 | the loop computes the tokens |
| StringHelper.SplitAdvance | src/server/include/utils/string_helper.h:17-21 | each cut moves the text before the first occurrence into the tokens |
| StringHelper.SplitUnfold | src/server/include/utils/string_helper.h:17-21 | `split` cuts at the first occurrence |
| StringHelper.JoinSplit | src/server/include/utils/string_helper.h:13-25 | joining the tokens with the delimiter gives the text back |
| StringHelper.SplitTokensFree | src/server/include/utils/string_helper.h:13-25 | no token holds the delimiter |
| StringHelper.SplitCount | src/server/include/utils/string_helper.h:13-25 | there is one more token than there are non-overlapping occurrences of the delimiter |
| StringHelper.SplitJoinChar | src/server/include/utils/string_helper.h:13-25 | splitting tokens joined with a character none of them holds gives the tokens back |
| StringHelper.StartsWith | src/server/include/utils/string_helper.h:27-29 | `starts_with` holds exactly when the text is the prefix followed by something |
| StringHelper.EndsWith | src/server/include/utils/string_helper.h:31-36 | `ends_with` holds exactly when the text is something followed by the ending, and never for a longer ending; the other header copy, src/server/include/anything/utils/string_helper.h:26-31, has the same `ends_with` |
| StringHelper.ContainsStr | src/server/include/utils/string_helper.h:38-40 | `contains` holds exactly when the text holds the substring |
| StringHelper.ContainsInvalidChars | src/server/include/utils/string_helper.h:42-48 | the path holds an invalid character exactly when one of its characters is ':', '[', ']', '{' or '}' |
| FileRecord.FileName | src/server/src/common/file_record.cpp:32 | the file name is a slash-free suffix of the path |
| FileRecord.Extension | src/server/src/common/file_record.cpp:35 | `path::extension()` is a suffix of the name that is empty or starts with its only dot and is shorter than the name |
| FileRecord.MakeFileRecord | src/server/src/common/file_record.cpp:28-53 | the record keeps the path and its file name, is hidden exactly when the path holds "/.", and takes its type, time and size from `get_file_info` |
| FileRecord.ExtensionShape | src/server/src/common/file_record.cpp:35-43 | the stored extension is empty, a lone dot, or the dot-free text after the last dot of a name with a non-empty stem |
| FileRecord.FileNameOf | src/server/src/common/file_record.cpp:32 | the file name of an entry in a directory is the entry's name |
| FileRecord.TrailingDotExt | src/server/src/common/file_record.cpp:41-43 | a name ending in '.' keeps the dot as its extension, since only an extension longer than one character loses it |
| FileRecord.ExtensionAt | src/server/src/common/file_record.cpp:35 | apart from "." and "..", the extension starts at the last dot when that is not the first character |
| FileRecord.DotFile | src/server/src/common/file_record.cpp:35-50 | a name like ".bashrc" has no extension but its path is hidden |
| FileRecord.HiddenComponent | src/server/src/common/file_record.cpp:50 | any component starting with '.' makes the path hidden |
| FileRecord.Normalised | src/server/src/common/file_record.cpp:55-87 | exactly the "YYYY-MM-DD HH:MM:SS", "YYYY-MM-DD" and "YYYY" forms are accepted, and each normalises to the full form with the input as its prefix |
| FileRecord.IsValidDateFormat | src/server/src/common/file_record.cpp:55-87 | the result says whether the string is accepted; an accepted string is replaced by its normal form, a refused one is left unchanged |
| FileRecord.NormalisedIdempotent | src/server/src/common/file_record.cpp:57-67 | normalising a normalised string changes nothing |
| FileRecord.AnyDigitsAccepted | src/server/src/common/file_record.cpp:68-76 | any two digits are accepted as month and day |
| FileRecord.NoRangeCheck | src/server/src/common/file_record.cpp:68-76 | "9999-99-99" is accepted and becomes "9999-99-99 00:00:00" |
| FileRecord.NormalisedSuffix | src/server/src/common/file_record.cpp:55-87 | a full form stays, a date gains " 00:00:00", and a year gains "-01-01 00:00:00" |
| Tools.AsciiLower | src/server/src/utils/tools.c:66 | an upper-case ASCII letter becomes its lower-case letter and every other character stays |
| Tools.AsciiLowerStr | src/server/src/utils/tools.c:66 | the lowered text has the same length, each character lowered |
| Tools.LastDot | src/server/src/utils/tools.c:53 | the index found holds the last '.'; none is found exactly when the path has none |
| Tools.Lookup | src/server/src/utils/tools.c:67-74 | the type is the first category in table order whose list holds the key, and "other" exactly when none does |
| Tools.LookupFrom | src/server/src/utils/tools.c:67-72 | from a position in the table, the same holds for the categories from there on |
| Tools.GetFileInfo | src/server/src/utils/tools.c:18-80 | the method gives what `get_file_info` reports for the path and the `stat` result |
| Tools.DirectoryType | src/server/src/utils/tools.c:46-50 | a directory is "dir" whatever its name, with its time and size |
| Tools.NoExtension | src/server/src/utils/tools.c:53-63 | a regular file with no '.' in its path, or whose extension with its dot is longer than 10 characters, is "other" |
| Tools.CaseInsensitive | src/server/src/utils/tools.c:65-66 | lower-casing the path does not change a regular file's type |
| Tools.LowerKey | src/server/src/utils/tools.c:65-66 | the key of the lowered path is the key of the path |
| Tools.ArchiveHoldsEmpty | src/server/src/utils/tools.c:22-24 | the archive list holds ";;" where two of its literals meet |
| Tools.AppLacksEmpty | src/server/src/utils/tools.c:21 | the app list does not hold ";;" |
| Tools.TrailingDotKey | src/server/src/utils/tools.c:53-65 | a path ending in '.' has its last dot at the end and the key ";;" |
| Tools.TrailingDotIsArchive | src/server/src/utils/tools.c:22-72 | a regular file whose path ends in '.' is classified "archive" |
| Tools.SmallSize | src/server/src/utils/tools.c:94-97 | below 1000 the text is at most three digits and " B", and the digits read back as the size |
| Tools.DecimalLength | src/server/src/utils/tools.c:96-97 | numbers below 10, 100 and 1000 have at most one, two and three digits |
| Tools.Blanks | src/server/src/utils/tools.c:251 | the conversion skips exactly the leading ASCII white space |
| Tools.StrToULL | src/server/src/utils/tools.c:251 | the end index lies in the text and the value fits 64 bits |
| Tools.ThreadPoolSize | src/server/src/utils/tools.c:243-261 | the default when the variable is unset, overflows or has text left over; otherwise a size from 1 to 128 |
| Tools.Clamp | src/server/src/utils/tools.c:255-258 | the clamped size is from 1 to 128 and unchanged when already in range |
| Tools.ThreadPoolDecimal | src/server/src/utils/tools.c:243-261 | a 32-bit number written in decimal is read back and clamped |
| Tools.Converted | src/server/src/utils/tools.c:251-260 | a fully converted value is cut to 32 bits and then clamped |
| Tools.DecimalParses | src/server/src/utils/tools.c:251 | a decimal numeral below 2^64 converts to its value with nothing left over |
| Tools.TrailingText | src/server/src/utils/tools.c:252-253 | text after the number makes the function return the default |
| Tools.TrailingEnd | src/server/src/utils/tools.c:251 | the conversion stops where the digits end |
| Tools.EmptyIsOne | src/server/src/utils/tools.c:249-256 | an empty value converts nothing but leaves `end` at the terminator, so the size is 0 clamped to 1 |
| Tools.WrapsBeforeClamp | src/server/src/utils/tools.c:251-258 | 2^32 + 1 is truncated to 1 by the `unsigned int` before clamping, giving 1 rather than 128 |
| Tools.RegularType | src/server/src/utils/tools.c:51-74 | a regular file's type is never "dir", is "other" or one of the table's category names, and is "other" for a path without a dot |
| Tools.Info | src/server/src/utils/tools.c:39-79 | `get_file_info` returns 0 exactly when `stat` succeeds, reports "dir" exactly for a directory, takes the time and size from `stat`, and gives 1 and "other" when `stat` fails |
| Tools.FormatSize | src/server/src/utils/tools.c:94-99 | below 1000 the text ends in " B", and a negative size starts with '-' |
| AnythingTokenizer.Decide | src/server/src/analyzers/AnythingTokenizer.cpp:83-147 | with fewer than 512 characters pending it is the code's decision; it differs only where the code would push into the full buffer, and there it gives the character back and emits the term; a character is pushed only while the buffer has room and never when blank; a symbol only after a letter or symbol; a dot only after a digit and before one; an "other letter" is emitted alone or gives itself back to end the term before it; a blank is skipped only with nothing pending |
| AnythingTokenizer.SymbolOverrun | src/server/src/analyzers/AnythingTokenizer.cpp:85-116 | as written, a '+' or a '.' is pushed at length 511 and 512 and a letter at 513, because only letters and digits test the length, and only for equality with 512 |
| AnythingTokenizer.PushFits | src/server/src/analyzers/AnythingTokenizer.cpp:169-175 | no push takes the term past the 512-character buffer, and with the buffer full nothing is pushed |
| AnythingTokenizer.FullBuffer | src/server/src/analyzers/AnythingTokenizer.cpp:104-120 | with 512 characters pending, a '+' after a letter, a dot after a digit and before one, and a letter are given back and end the term; a dot with no digit before it ends the term and is consumed, as in the code |
| AnythingTokenizer.ChunkEnd | src/server/src/analyzers/AnythingTokenizer.cpp:58-61 | the chunk holding a character ends after it, within the input and at most 1024 characters on |
| AnythingTokenizer.Scan | src/server/src/analyzers/AnythingTokenizer.cpp:44-149 | a call, from any pending term of at most 512 characters, only moves forward, and an emitted term is 1 to 512 characters that lie before the new position |
| AnythingTokenizer.SeenSome | src/server/src/analyzers/AnythingTokenizer.cpp:97-103 | the `last_is_en` and `last_is_num` flags say that some character of the term took that branch |
| AnythingTokenizer.BlankRunAll | src/server/src/analyzers/AnythingTokenizer.cpp:145-147 | a run of skipped characters is one whose every character is blank |
| AnythingTokenizer.PendingAll | src/server/src/analyzers/AnythingTokenizer.cpp:83-120 | a pending term is one whose every character was placed by its branch's rule |
| AnythingTokenizer.PendingSnoc | src/server/src/analyzers/AnythingTokenizer.cpp:169-175 | a pending term grows by one placed character |
| AnythingTokenizer.TakeStep | src/server/src/analyzers/AnythingTokenizer.cpp:83-120 | a push extends the pending term, keeps it a term, and updates the letter and digit flags |
| AnythingTokenizer.ScanSound | src/server/src/analyzers/AnythingTokenizer.cpp:54-148 | from any state of the loop, the call either emits a term preceded only by blanks or reaches the end having seen only blanks |
| AnythingTokenizer.SkipSound | src/server/src/analyzers/AnythingTokenizer.cpp:145-147 | skipping a blank keeps the loop's facts |
| AnythingTokenizer.TakeSound | src/server/src/analyzers/AnythingTokenizer.cpp:83-120 | pushing a character keeps the loop's facts |
| AnythingTokenizer.ScanStep | src/server/src/analyzers/AnythingTokenizer.cpp:54-148 | one step of the loop: a skip or push goes on from the next character, and each emitting branch ends the call with its term and position |
| AnythingTokenizer.StopSound | src/server/src/analyzers/AnythingTokenizer.cpp:85-146 | each branch that returns ends the call soundly |
| AnythingTokenizer.PendingEmitted | src/server/src/analyzers/AnythingTokenizer.cpp:178-186 | a pending term of 1 to 512 characters after blanks may be emitted |
| AnythingTokenizer.IncrementTokenMeaning | src/server/src/analyzers/AnythingTokenizer.cpp:44-149 | every call either emits a term after blanks or finds only blanks to the end |
| AnythingTokenizer.StrayPunctuationStops | src/server/src/analyzers/AnythingTokenizer.cpp:104-120 | a symbol or dot with nothing pending makes the call return false having consumed it |
| AnythingTokenizer.OtherLetterAlone | src/server/src/analyzers/AnythingTokenizer.cpp:137-144 | an "other letter" is a term of its own, and with a term pending it is given back so that term is emitted first |
| AnythingTokenizer.Folded | src/server/src/analyzers/AnythingTokenizer.cpp:174 | the stored term is the text with each character lowered |
| AnythingTokenizer.ChunkAt | src/server/src/analyzers/AnythingTokenizer.cpp:58-61 | a chunk read at an aligned start ends where the chunk arithmetic says |
| AnythingTokenizer.Position | src/server/src/analyzers/AnythingTokenizer.cpp:56-80 | the reader's next index lies within the input |
| AnythingTokenizer.Fill | src/server/src/analyzers/AnythingTokenizer.cpp:58-61 | refilling keeps the position; it gives -1 exactly when the input is used up, and otherwise a fresh non-empty chunk |
| AnythingTokenizer.LookAhead | src/server/src/analyzers/AnythingTokenizer.cpp:80-115 | the character read is the input's, and the look-ahead tests see the next character only inside the current chunk |
| AnythingTokenizer.Read | src/server/src/analyzers/AnythingTokenizer.cpp:56-80 | reading gives the next input character and advances by one, or none at the end of the input with the offset unchanged |
| AnythingTokenizer.Tokenizer.constructor | src/server/src/analyzers/AnythingTokenizer.cpp:23-42 | a new tokenizer reads its input from the start |
| AnythingTokenizer.Tokenizer.Reset | src/server/src/analyzers/AnythingTokenizer.cpp:157-167 | resetting reads the new input from its start |
| AnythingTokenizer.Tokenizer.End | src/server/src/analyzers/AnythingTokenizer.cpp:151-155 | both offsets are set to the final position |
| AnythingTokenizer.Tokenizer.Flush | src/server/src/analyzers/AnythingTokenizer.cpp:178-186 | a non-empty term is emitted with offsets from its start to its end; an empty one leaves the attributes alone |
| AnythingTokenizer.Tokenizer.Push | src/server/src/analyzers/AnythingTokenizer.cpp:169-175 | the lowered character is appended to the term, and the first one sets the start just before `offset_` |
| AnythingTokenizer.Tokenizer.Handle | src/server/src/analyzers/AnythingTokenizer.cpp:83-147 | carrying out a decision keeps the scan's result the same, or ends it with the scan's outcome |
| AnythingTokenizer.Tokenizer.Advance | src/server/src/analyzers/AnythingTokenizer.cpp:54-148 | one turn of the loop keeps the scan's result the same, or ends it with the scan's outcome |
| AnythingTokenizer.Tokenizer.IncrementToken | src/server/src/analyzers/AnythingTokenizer.cpp:44-149 | the call's result, position and term are the scan's, and an emitted term is the lowered text between its offsets |
| AnythingTokenizer.Tokenizer.Run | src/server/src/analyzers/AnythingTokenizer.cpp:54-148 | the loop ends with the reader where the scan stops and the buffer holding the folded characters of the term the scan finds |
| AnythingTokenizer.Tokenizer.Finish | src/server/src/analyzers/AnythingTokenizer.cpp:69-78 | at the end of the input the pending term is emitted exactly when non-empty |
| AnythingTokenizer.FoldedBuffer | src/server/src/analyzers/AnythingTokenizer.cpp:174-180 | the buffer read back is the lowered term |
| AnythingTokenizer.StepAsWritten | src/server/src/analyzers/AnythingTokenizer.cpp:83-147 | as written, a character is skipped exactly when it is blank and no term is pending, given back exactly when it is an other letter after a pending term, pushed only when it is not blank or an other letter, and a letter or digit that fills the buffer emits; no length check governs symbols and dots |
| AnythingFilter.Kept | src/server/src/analyzers/AnythingFilter.cpp:29-50 | at most the input's terms pass, each one is an input term that passes the test |
| AnythingFilter.Filter.constructor | src/server/src/analyzers/AnythingFilter.cpp:23-27 | a new filter starts at the first term of its input |
| AnythingFilter.Filter.IncrementToken | src/server/src/analyzers/AnythingFilter.cpp:29-50 | each call gives the next term that passes, or false once the input is used up |
| AnythingFilter.KeptFirst | src/server/src/analyzers/AnythingFilter.cpp:30-46 | filtering from a term is deciding that term and then filtering the rest |
| AnythingFilter.StopWordsDropped | src/server/src/analyzers/AnythingFilter.cpp:15-33 | no stop word passes |
| AnythingFilter.LetterTerms | src/server/src/analyzers/AnythingFilter.cpp:34-38 | a one-letter term is dropped, and a longer letter term passes exactly when it is not a stop word |
| AnythingFilter.OtherTerms | src/server/src/analyzers/AnythingFilter.cpp:39-45 | a term led by a digit, an "other letter" or a dot passes exactly when it is not a stop word |
| AnythingFilter.KeptAppend | src/server/src/analyzers/AnythingFilter.cpp:29-50 | filtering keeps the order: two runs of input pass as each run's terms in turn |
| AnythingFilter.KeptIdempotent | src/server/src/analyzers/AnythingFilter.cpp:29-50 | filtering twice is filtering once |
| AnythingFilter.Keep | src/server/src/analyzers/AnythingFilter.cpp:33-45 | a term that passes is not a stop word, is not empty, starts with a letter, digit, other letter or '.', and has two or more characters when it starts with a letter |
| Config.ReplaceFirst | src/server/src/core/config.cpp:29-32 | without an occurrence the entry is unchanged; otherwise its first occurrence is replaced |
| Config.Substituted | src/server/src/core/config.cpp:28-33 | each of the four default entries has its first `$HOME` replaced |
| Config.Config.constructor | src/server/src/core/config.cpp:17-35 | the blacklist is the defaults with the home directory substituted |
| Config.Config.IsPathInBlacklist | src/server/src/core/config.cpp:38-46 | a path is blacklisted exactly when it holds some entry as a substring |
| Config.HomeFirst | src/server/src/core/config.cpp:29-31 | an entry starting with `$HOME` becomes the home directory followed by the rest |
| Config.Blacklist | src/server/src/core/config.cpp:20-33 | the blacklist is exactly home + "/.git", "/.svn", "/.cache" and "/.local/share/Trash" |
| Config.Blacklisted | src/server/src/core/config.cpp:38-46 | a path is blacklisted exactly when it holds one of those four directories |
| Config.AnywhereInPath | src/server/src/core/config.cpp:41 | an entry may sit anywhere in the path, not only at its start |

## Left out

- Kernel hooks, netlink sockets, sysfs files, DBus and the timers and locks around them are not modelled. Their effect is given as inputs: messages, listings, and whether an open or a write succeeds.
- libmount, udisks (DDiskManager), `stat`, `statx`, `getenv`, `g_format_size`, iconv and libnl parsing are foreign code. Each is a parameter or an oracle function.
- LftSpec.TreeEnd: the parent climbs of `get_tree_end` and `get_insert_offset` carry a fuel bound of 2^32 climbs. The bound keeps the walk total on a buffer whose offsets form a cycle. A well-formed buffer never reaches it.
- Primes.Next: the search for the next prime carries a fuel bound. Bertrand's postulate, which shows the bound is never reached, is not proved.
- Primes.Generate: that the list is exactly the primes up to its end, and so that it reports 131071, is proved only under the ghost flag `exact`: each new prime must lie below the square of the one before it. That every prime has a successor in that range follows from Bertrand's postulate, which is not proved.
- Allocation failure is an oracle at these checked allocations: the two `malloc`s of `new_fs_buf` (`allocOk`), the `realloc` of `add_capacity` (`allocOk`), the subtree copy of `do_remove_path` (`treeOk`), the copies in `do_rename_path` (`treeOk`, `nameOk`, `roomOk`), the rule `malloc` of `_parseRules` (`failAt`), the rule copies of `get_rules` (`failAt`), the link of `add_jump` (`allocOk`), the partition `kmalloc` of `parse_mounts_info` (`failAt`) and of `vfs_add_partition` (`allocOk`, one per line in `vfs_init_partition`), the change `kmalloc` of `vfs_changed` and the buffer of `move_vfs_changes` (`allocOk`), `composite_str` and the keyword arrays.
- AllmemIndex.Index.constructor assumes allocation succeeds: `new_allmem_index` returns null when its `malloc` or `calloc` fails, and a Dafny constructor always yields an object.
- AllmemIndex.Index.SaveTable models only the count/offset table of `save_allmem_index`. Its file writes and the `malloc` of the table, with return codes 1 to 5, are I/O and are not modelled.
- VfsPartition: the red-black recolouring and rotations of `rb_insert_color` and `rb_erase` are modelled as a plain unbalanced binary search tree. Callers observe only the ordering and the map contents, which are proved; the balance and depth bound are not.
- LftBuffer.PathInsert, LftBuffer.NodeRemove, LftBuffer.KidsRemove and LftBuffer.TreeCopy return CORRUPT (-1), a code the C library does not have, where a malformed buffer would make `memmove` run outside the tree. A well-formed buffer never reaches these guards.
- LftBuffer.FsBuf.InsertPath: the new buffer is proved equal to `PathInsert` of the old one, and the entry it writes, its links and the offset update are proved step by step. That a lookup of the path then finds the new entry, and that every other path is still found, is not proved.
- LftBuffer.FsBuf.RemovePath: the new buffer is proved equal to `PathRemove` of the old one, and the relinking and the cut are proved step by step. That a lookup of the path then fails, and that every path outside the removed subtree is still found, is not proved.
- LftBuffer.FsBuf.RenamePath: the new buffer is proved equal to `PathRename` of the old one. That the target is then found with the source's subtree, and the source no longer is, is not proved.
- LftManager.Target: `_parseRules` copies the rule text into the 255-byte `target` of `search_rule` with `strcpy`. The model keeps a target of any length, so the overflow of a rule text of 255 characters or more is not captured.
- `rulesearch_thread` and `parallelsearch_files` are not modelled. They are thread fan-out around the search loops that are modelled.
- `match_str` has two engines, pinyin matching and pcre regular expressions. Both are given as the comparator parameter of the search.
- `walkdir` is not modelled: it traverses the file system. Its partition table and skip rules are modelled.
- EventMerge.Clearup: the wait for the event list to drain is not modelled. In quit mode `pick_events` can move more than 100 events into the 101-slot send array. The array is modelled as a sequence, so that overrun is not captured.
- EventMerge: actions at or above 14 have no merge function. The C code would read past its table there, and the model treats them as unmerged.
- EventSourceGenl.Route: `_dst` is taken as a parameter `unset`, because the source leaves it uninitialised for an unmatched rename-to (see Findings).
- MountInfo.MountManager.Update requires every line to be well formed: ten fields, a decimal "major:minor", and a "-" separator, and reads a blank listing as the empty set (see Findings). On other lines `std::stoul` may throw or read a digit prefix ("12x" gives 12; it throws only when there is no digit or the value is out of range), which is not modelled, and `operator[]` past the last field is undefined behaviour.
- MountInfo.MountManager.Update reads the type after the separator, not field 9 as written (see Findings).
- UnnamedSync.ReadBlankFails: an empty file reads as the empty set. The log line of mount_manager.cpp:201 then dereferences `begin()` of that empty set, which is undefined behaviour. The log line is output and is not modelled.
- The index manager's `Dispatch` and `generate_file_record` are not modelled. The event handler's result names the index operation it requests.
- LftManager.CpuLimitCheck: the CPU usage reading is a `real` input. Reading `/proc` is not modelled.
- QtNumber.Trim: `string_helper::trim` is not part of the headers modelled here. It is modelled as a trim of ASCII white space, a simplification of `QString::trimmed`, which strips every character `QChar::isSpace` accepts.
- StringHelper.Split requires a non-empty delimiter. The source loops forever on an empty one.
- LftRules.CheckName: the C macro `strendwith` reads before the start of the name when the target is longer than the name, which is undefined behaviour. The model answers false there.
- Tools: `format_time`, `get_device_root_mountpoint`, `get_mount_id`, `bfs_search`, `find_dir_full_path` and `get_full_path` are not modelled. They are libmount and file-system I/O.
- FileRecord: `to_milliseconds_since_epoch` depends on `mktime` and the local time zone. `get_file_creation_time` calls `statx`, and the `file_helper` constructor reads a configuration file. None of the three is modelled.
- Pinyin: the dictionary file read is an input of lines. The byte limit of the sentence buffer is not modelled.
- AnythingTokenizer: the `isLastDot` and `is_word` helpers are commented out or unused, and are not modelled. `correctOffset` is taken as the identity. The UnicodeUtil classes are a `kind` parameter, and the CharFolder lowering is a `fold` parameter.
- AnythingTokenizer.Decide departs from the code as written only where the code pushes a '+', '#', '.', letter or digit into the full 512-character buffer (see Findings); there it emits the term and gives the character back. Wherever the code stays within its buffer, Decide, and so Scan and Tokenizer.IncrementToken, give the code's terms. StepAsWritten keeps the code's decision, and SymbolOverrun states the overrun it allows.
- LftDiskTool: the DBus and udisks calls are given as their results. An index file's name is modelled, but its existence on disk is not.
- LftBuffer.FsBuf.RenamePath uses the corrected parent check (see Findings), not the check as written.

## Findings

| source | as written | input that shows it | evidently intended | confidence | as-written member | corrected member |
|---|---|---|---|---|---|---|
| src/server/src/core/mount_manager.cpp:190-193 | a blank first line of `vfs_unnamed_devices` makes `read_vfs_unnamed_device` fail, so `update_vfs_unnamed_device` writes nothing | the kernel holds no minor and lists "\n", while the mount table holds a dlnfs minor | a blank listing is the empty set, as it is when the kernel prints it at src/kernelmod/vfs_sysfs.c:44-45 | medium, not executed | UnnamedSync.ReadBlankFails, UnnamedSync.EmptySetUnreadable | UnnamedSync.ReadBlankEmpty, UnnamedSync.MountManagerSync |
| src/server/src/core/mount_manager.cpp:36,42 | the file-system type is read from field 9 of the split line | a dlnfs line with one optional field, such as `shared:1`, has its type in field 8 and its source in field 9 | the type is the field after the "-" separator | medium, not executed | MountInfo.TenthFieldMissesDlnfs | MountInfo.TypeFieldAgrees |
| src/server/backend/eventsource_genl.cpp:250,285-292 | an unmatched rename-to is saved with `_dst`, which was never assigned | a rename-to message whose cookie no rename-from stored | no destination, as for every other unpaired event | high, not executed | EventSourceGenl.UnmatchedRenameToTakesUnset | EventSourceGenl.Normalised |
| src/server/backend/lib/lftdisktool.cpp:112-117 | the mount point gets a '/' whenever it does not end with one, even when the rest of the path after the root already starts with '/' | a partition with "/a" mounted at "/mid" and "/a/b" at "/deep": the uri of "/deep" is "serial:ID/a/b", which resolves to "/mid//b" | a '/' only when neither side has one, so it resolves to "/mid/b" | medium, not executed | LftDiskTool.BindMountAsWritten | LftDiskTool.Join, LftDiskTool.JoinRestores, LftDiskTool.SerialRoundTrip, LftDiskTool.BindMountCorrected |
| src/server/src/analyzers/AnythingTokenizer.cpp:104-120 | symbol and dot pushes never check `max_word_len`, and the letter and digit branches test only `== 512` | "a" followed by 512 '+' characters: the last '+' is written at index 512 of the 512-character buffer | a push into the full buffer is not made: the 512-character term is emitted and the character is read again by the next call. Every decision taken with room in the buffer is the code's, including the '.' that ends the full term in "a", 511 '+', ".b c" | low, not executed | AnythingTokenizer.StepAsWritten, AnythingTokenizer.SymbolOverrun | AnythingTokenizer.Decide, AnythingTokenizer.PushFits, AnythingTokenizer.FullBuffer |
| src/library/src/fs_buf.c:829-830 | a rename target whose parent is a file is refused only when that parent's offset equals `DATA_START` | renaming "/a" to "/f/b" where "/f" is a file | the parent must be a directory, the test `do_insert_path` makes at fs_buf.c:654 | medium, not executed | LftSpec.RenameCheckAsWritten, LftSpec.RenameFileParentPassesAsWritten | LftSpec.RenameCheck, LftSpec.RenameChecksDisagree |
