# IPv4 CIDR aggregation of the IPMS importer, in Dafny

This project models the core of castisdev/ipms-importer. The core reads IPMS routing lines and
maps each line's office code to (service code, GLB or region id) pairs. It sorts the resulting
address records and cuts them into runs of contiguous blocks with equal keys. It merges every
run to a fix-point with `Sum`, which keeps replacing an even-aligned block and its same-size
successor by their parent block (prefix notation, RFC 4632 section 3.1). Finally it folds the
merged records into nested service code → group id → netmask lists.

The engine exists in three copies:
- the library (`ipms/ipms-record.go`);
- an older copy (`ipms-importer/ipms-record.go`). It is the same code, apart from names, for
  the members it has, and module `IpmsRecord` models both there. It lacks `ipmsSort2`,
  `simpleMaskLength` and `NewRecordFromCIDR`, so `IpmsRecord.LessByStartOrder`,
  `IPv4.SimpleMaskLength` and `IpmsRecord.NewRecordFromCIDR` model the library only;
- a prototype (`main/main.go`). It also records the original records behind every merged
  block and computes block end addresses. Module `Prototype` models it.

Modules:

| module | models |
|---|---|
| `Wrappers` | `Option` and `Result`. |
| `Text` | Go's string order, `strconv.Atoi`, and the dotted-quad text of an IPv4 address (a model of the part of `net.ParseCIDR` the engine uses). |
| `IPv4` | 32-bit addresses as naturals below 2^32: `int2ip` and its inverse, masking to a prefix, `uint32` shifts with wrap-around, the parity test of `Sum`, `canStart`, `simpleMaskLength`. |
| `Blocks` | CIDR blocks, contiguous chains of blocks, one merge pass over a chain, and the covered address set. The merge proofs live here once and are transferred to both record types. |
| `IpmsRecord` | `IpmsRecord`/`ipmsRecord`: the sort order and a sort, `NewRecord`, `NewRecordFromCIDR`, `nextStartIP`, `canStart`, `newParent`, `IsCont`, and the class `ContSet` with `Add` and `Sum`. |
| `Join` | The office → node → group join of both getters. |
| `Grouping` | The nested grouping pass of both getters, generic in what is listed per group. |
| `IpmsGetter` | `MergeIPMSRecords` of `ipms/getter.go`: sort, run splitting, `Sum` per run, grouping. |
| `Importer` | `getIPMSRecords` of `ipms-importer/getter.go`: the per-line filter, its counters, the run loop as written, and the whole function (scan, sort, merge, group). |
| `Config` | `newYmlConfig` after unmarshalling: defaults and required fields. |
| `Prototype` | `main/main.go`: records with child lists, both sort orders, `NewParent`, `Sum`, `EndIP`. |

Addresses are naturals below 2^32. A `net.IP` compared by `String()` is compared as its 32-bit
value. A CIDR string that a record carries is the pair (address, prefix) it was written with.
A run (`contSet`) is a `seq` held in a class whose `Sum` loops over an index, as in Go.

## Model

| member | source | states |
|---|---|---|
| Text.StrLessIrreflexive | ipms/ipms-record.go:22 | Go's byte-wise string `<` is irreflexive. |
| Text.StrLessTransitive | ipms/ipms-record.go:22 | Go's string `<` is transitive. |
| Text.StrLessTotal | ipms/ipms-record.go:22 | Two strings are equal or ordered one way. |
| Text.Atoi | ipms/ipms-record.go:119-123 | Success only on integer text within Go's int range; every failure is the error naming the text. |
| Text.AtoiDecimal | ipms/ipms-record.go:119-123 | The decimal text of every number up to MaxInt parses back to that number. |
| Text.ParseFormatIPv4 | ipms/ipms-record.go:125-126 | Parsing the dotted-quad text of any 32-bit address gives that address back. |
| Text.ParseIPv4Canonical | ipms/ipms-record.go:125-126 | Every address text the parser accepts is the printed form of its value, so an address stands for exactly one dotted-quad text. |
| Text.FormatIPv4Injective | ipms/ipms-record.go:228 | Two addresses have the same text exactly when they are equal, so `String()` comparison is value comparison. |
| IPv4.Uint32OfInt2IP | ipms/ipms-record.go:45-49 | Reading back the 4 big-endian bytes `int2ip` writes gives the address. |
| IPv4.Int2IPOfUint32 | ipms/ipms-record.go:45-49 | Every 4-byte address is `int2ip` of its value. |
| IPv4.Mask | ipms/ipms-record.go:127-128 | Masking to a prefix gives the aligned block start at or below the address, less than one block below it. |
| IPv4.NextStart | ipms/ipms-record.go:136-140 | The start plus 2^(32-prefix) modulo 2^32; a /0 shift is lost and the result is the start itself. |
| IPv4.CanStartIsLowerHalf | ipms/ipms-record.go:142-148 | On an aligned start, the mask test succeeds exactly when the bits above the block are even. |
| IPv4.AlignedParentIffEven | ipms/ipms-record.go:188-189 | An aligned start is aligned to the parent prefix exactly when `start >> (32-prefix)` is even. |
| IPv4.CountLeadingOnes | ipms/ipms-record.go:73-76 | The shift loop over one byte finds j with OnesByte(j) <= b < OnesByte(j+1), and v = 0 exactly when the byte is j ones. |
| IPv4.SimpleMaskLength | ipms/ipms-record.go:64-89 | On a contiguous mask the result is its number of leading ones; the result is -1 exactly when the mask is no prefix mask. |
| Blocks.ParentOfPair | ipms/ipms-record.go:158-178 | Two adjacent same-prefix blocks where the first is even-aligned make up their parent block. |
| Blocks.ZeroPrefixOnlyLast | ipms/ipms-record.go:138 | In a chain only the last block can be /0, so every merge candidate has a parent prefix. |
| Blocks.ChainCovers | ipms/ipms-record.go:215-229 | A chain covers exactly the addresses from its first start to its last end. |
| Blocks.PassBlocks | ipms/ipms-record.go:186-200 | One merge pass keeps a chain a chain from the same first start to the same last end, and never lengthens it. |
| Blocks.PassKeepsLengthIff | ipms/ipms-record.go:203-208 | A pass keeps the length exactly when no pair is mergeable, and then it changes nothing. |
| Blocks.PassCovers | ipms/ipms-record.go:186-200 | A pass covers the same addresses as its chain. |
| IpmsRecord.LessIrreflexive | ipms/ipms-record.go:20-31 | No record is less than itself. |
| IpmsRecord.LessTransitive | ipms/ipms-record.go:20-31 | The lexicographic order on (ServiceCode, GLBID, NetCode, IPStartInt) is transitive. |
| IpmsRecord.LessTotal | ipms/ipms-record.go:20-31 | Two records are ordered one way exactly when their sort keys differ. |
| IpmsRecord.LessAsym | ipms-importer/ipms-record.go:20-31 | `a < b` excludes `b < a`. |
| IpmsRecord.NotLessTransitive | ipms-importer/ipms-record.go:20-31 | "Not less" is transitive, as a sort needs. |
| IpmsRecord.LessByStartOrder | ipms/ipms-record.go:41-43 | ipmsSort2's order by IPStartInt is irreflexive and transitive. |
| IpmsRecord.SortRecords | ipms/getter.go:149 | The sorted sequence is in Less order and a permutation of its input. |
| IpmsRecord.InsertSorted | ipms/getter.go:149 | Inserting into a sorted sequence keeps it sorted. |
| IpmsRecord.Swap | ipms/ipms-record.go:17-19 | Positions i and j are exchanged and nothing else changes. |
| IpmsRecord.SwapPermutes | ipms/ipms-record.go:17-19 | A swap permutes the sequence. |
| IpmsRecord.SortInPlace | ipms/getter.go:149 | The array becomes the sort of its old contents. |
| IpmsRecord.NewRecord | ipms/ipms-record.go:111-134 | A non-integer prefix gives Atoi's error; otherwise the keys are copied, the CIDR is kept, and the block of that prefix holds the address, aligned (low 32-prefix bits zero). |
| IpmsRecord.NewRecordBlockUnique | ipms-importer/ipms-record.go:59-69 | Only one aligned block of a prefix holds an address, so the masked start is determined. |
| IpmsRecord.NewRecordFromCIDR | ipms/ipms-record.go:92-108 | For a 4-byte address and mask: keys copied, start is the address's 32-bit value unmasked, prefix is the mask's length when it is a prefix mask and -1 otherwise, CIDR is that address and prefix. |
| IpmsRecord.NewParent | ipms/ipms-record.go:158-178 | First's four keys, prefix one less, start first's start masked to that prefix. |
| IpmsRecord.NextStartIP | ipms-importer/ipms-record.go:76-80 | The start plus the block size, wrapping at 2^32; /0 wraps to the start. |
| IpmsRecord.CanStartIsLowerHalf | ipms-importer/ipms-record.go:82-88 | true exactly when the start is aligned to the parent block (the lower half), which is Sum's parity test; never for /0. |
| IpmsRecord.IsCont | ipms/ipms-record.go:215-229 | An empty run accepts any record; otherwise the three keys equal the first element's and the start is the last element's next start. |
| IpmsRecord.PassBlocksOf | ipms/ipms-record.go:186-200 | On a chain, the blocks of the record pass are the block pass: merged records carry exactly the parent blocks. |
| IpmsRecord.PassUniform | ipms/ipms-record.go:186-200 | A pass keeps every record's keys equal to the run's keys. |
| IpmsRecord.PassUnchanged | ipms/ipms-record.go:203-205 | On a chain, a pass that merges nothing returns its input. |
| IpmsRecord.SumChain | ipms/ipms-record.go:180-209 | Sum keeps a chain a chain from the same first start to the same last end, and a nonempty run nonempty. |
| IpmsRecord.SumUniform | ipms/ipms-record.go:180-209 | The merged run keeps the run's keys. |
| IpmsRecord.SumShort | ipms/ipms-record.go:181-183 | A run of at most one record is left as it is. |
| IpmsRecord.SumIsFixpoint | ipms/ipms-record.go:180-209 | On a chain, the result has no mergeable pair and a further pass changes nothing. |
| IpmsRecord.SumIdempotent | ipms/ipms-record.go:180-209 | Summing twice is summing once. |
| IpmsRecord.SumStopsIff | ipms-importer/ipms-record.go:120-149 | Sum returns its input exactly when no pair is mergeable. |
| IpmsRecord.SumCovers | ipms/ipms-record.go:186-200 | Sum covers exactly the addresses of the chain it is given. |
| IpmsRecord.SumLoopPass | ipms/ipms-record.go:186-200 | The index loop, skipping two on a merge, computes one pass. |
| IpmsRecord.SumPass | ipms/ipms-record.go:186-200 | The loop that builds set2 returns the pass of the run. |
| IpmsRecord.ContSet.Add | ipms/ipms-record.go:211-213 | Appends exactly one record and keeps the others. |
| IpmsRecord.ContSet.Clear | ipms/getter.go:160 | `set = set[:0]` empties the run. |
| IpmsRecord.ContSet.Sum | ipms/ipms-record.go:180-209 | The run becomes its fix-point merge; the recursion ends because every recursive call follows a strict decrease. |
| Join.NodeMap | ipms/getter.go:101-103 | The map from node code to that node's entries. |
| Join.EntriesOfMembers | ipms/getter.go:101-103 | The entries under a code are list entries with that code, and every such entry is there. |
| Join.BuildNodeMap | ipms/getter.go:101-103 | The loop builds the node map. |
| Join.Expand | ipms/getter.go:110-116 | One office mapping per node entry, in order: OfficeCode from the office, ServiceCode and GLBID from the entry. |
| Join.AppendExpanded | ipms/getter.go:110-116 | The inner loop appends the expansion under the office code, and leaves the map alone when there is none. |
| Join.JoinOffices | ipms/getter.go:106-120 | Every office code maps to its joined list; a code is a key exactly when that list is nonempty; failed nodes are the unknown ones. |
| Join.OfficeMapping | ipms-importer/getter.go:100-119 | The node map followed by the join of the importer. |
| Join.JoinedMembers | ipms-importer/getter.go:105-115 | A mapping is under an office exactly when some office entry and some node entry with the same node produce it. |
| Join.FailedMembers | ipms/getter.go:117-119 | A node code is failed exactly when an office entry names it and no node entry has it. |
| Join.JoinedKeys | ipms/getter.go:108-116 | An office code is in the mapping exactly when one of its nodes has an entry. |
| Join.JoinedOfficeCode | ipms/getter.go:111-112 | Every mapping under an office code carries that code. |
| Grouping.Group | ipms/getter.go:170-189 | The grouping loop computes the specified nested lists. |
| Grouping.GroupFlatten | ipms/getter.go:174-189 | Flattening all groups lists every payload once, in input order. |
| Grouping.GroupServiceCodes | ipms/getter.go:176-181 | A service info opens exactly where ServiceCode changes from the previous record. |
| Grouping.GroupGroupIds | ipms/getter.go:182-187 | A group opens exactly where GLBID changes from the previous record. |
| Grouping.GroupExact | ipms/getter.go:170-189 | When every ServiceCode change also changes GLBID, every payload is filed under its own service code and group id. |
| Grouping.SameGroupAcrossServices | ipms/getter.go:176-188 | A service change with an equal GLBID files the record under the previous service's group and leaves the new service empty. |
| IpmsGetter.EndMeetsNext | ipms/ipms-record.go:215-229 | In a sorted list of whole records, IsCont's wrapping next-start test only accepts the block that starts where the previous one ends. |
| IpmsGetter.CollectRuns | ipms/getter.go:151-168 | The run loop, with the final flush, gives the runs each summed in order. |
| IpmsGetter.RunsSummedCovers | ipms/getter.go:151-168 | A (keys, address) pair is covered after merging exactly when it was covered before. |
| IpmsGetter.RunsSummedShorter | ipms/getter.go:151-168 | Merging never lengthens the list. |
| IpmsGetter.RunsSummedHead | ipms/getter.go:151-168 | The first merged record has the keys of the first sorted record. |
| IpmsGetter.SortKeepsRequirements | ipms/getter.go:149 | Sorting keeps every record whole and valid. |
| IpmsGetter.MergedFirstOk | ipms/getter.go:174-189 | When the first sorted record has both keys nonempty, the grouping starts correctly. |
| IpmsGetter.MergeIPMSRecords | ipms/getter.go:148-192 | The caller's array is sorted in place, and the result is the grouping of the summed runs. |
| IpmsGetter.MergedPayloads | ipms/getter.go:188 | Flattening the result gives the merged records' (CIDR, NetCode) pairs in order. |
| Importer.EntryRecord | ipms-importer/getter.go:158 | One record per mapping entry: Atoi's error, or the entry's keys, the line's office code and the block of field 7 holding field 0. |
| Importer.LineRecordsFails | ipms-importer/getter.go:157-161 | A mapped line fails exactly when it has entries and field 7 is no integer, with the error naming field 7. |
| Importer.LineRecordsValues | ipms-importer/getter.go:157-163 | Otherwise it gives one record per entry, in order. |
| Importer.AppendLineRecords | ipms-importer/getter.go:157-163 | The inner loop returns the first error or appends the line's records. |
| Importer.ScanOfSnoc | ipms-importer/getter.go:151-168 | The scan of a longer prefix of lines is one more step of the loop. |
| Importer.ScanFailureSticks | ipms-importer/getter.go:159-161 | The first error returns at once: any lines at all may follow, and they do not change it. |
| Importer.ReadLine | ipms-importer/getter.go:153-166 | The loop body is one scan step: the line is counted, then its records are appended or newRecord's error returned, or its unmapped code is counted and filed under its line number. |
| Importer.ScanLines | ipms-importer/getter.go:151-168 | The scan loop computes the scan of the lines; only the lines it reaches need be readable. |
| Importer.InvalidLinesSnoc | ipms-importer/getter.go:164-166 | A line adds its number to the invalid lines exactly when its office code is unmapped. |
| Importer.FailedStepUnmapped | ipms-importer/getter.go:165 | An unmapped code is recorded with the number of its latest line. |
| Importer.ScanStepFails | ipms-importer/getter.go:156-166 | A step fails exactly on a mapped line with entries and a non-integer prefix. |
| Importer.ScanFailsMeaning | ipms-importer/getter.go:151-168 | The scan succeeds exactly when it gets past every line, and a failure is the error of the first bad line, the lines before it all good and the lines after it unread. |
| Importer.ShortLineAfterBadLine | ipms-importer/getter.go:151-161 | A bad line followed by a line too short to index is accepted, and the scan returns the bad line's error. |
| Importer.ScanSucceedsMeaning | ipms-importer/getter.go:151-168 | On success: lineCnt counts all lines; invalidLineCnt counts the lines with unmapped codes; the records are those of the mapped lines in order; failedOfficeCodes maps exactly the unmapped codes to their last line. |
| Importer.RecordsOfValid | ipms-importer/getter.go:158 | Every scanned record is a valid aligned block. |
| Importer.CollectRunsAsWritten | ipms-importer/getter.go:182-194 | The run loop as written: only runs closed by a non-contiguous record are appended. |
| Importer.CollectLoopSplits | ipms-importer/getter.go:182-194 | The loop with the final flush is the loop as written followed by the summed final run. |
| Importer.FinalRunDropped | ipms-importer/getter.go:182-194 | For every nonempty input the final summed run is nonempty and missing, so the result is strictly shorter. |
| Importer.OneRecordLost | ipms-importer/getter.go:182-194 | A single record yields nothing as written, and itself with the flush. |
| Importer.CidrItemsFirstOk | ipms-importer/getter.go:200-213 | When the first sorted record has both keys nonempty, the grouping starts correctly. |
| Importer.ImportedCidrs | ipms-importer/getter.go:214 | Flattening the result lists each CIDR exactly once, in order. |
| Importer.GetIPMSRecords | ipms-importer/getter.go:151-215 | Only the lines up to the first bad one need be readable; the scan's error is returned unchanged; otherwise the result is the grouping of the sorted, summed runs. |
| Config.NewYmlConfig | ipms-importer/config.go:29-45 | Defaults in sequence then early returns compute the validated configuration. |
| Config.ValidatedErrors | ipms-importer/config.go:35-43 | Refused exactly when an API address is empty; the error names the first empty one in field order. |
| Config.ValidatedFields | ipms-importer/config.go:29-45 | Accepted: every field is set, empty log settings become "log" and "info", and every other field is unchanged. |
| Config.ValidatedIdempotent | ipms-importer/config.go:29-45 | Validating an accepted configuration again gives it back unchanged. |
| Prototype.LessOrder | main/main.go:24-29 | Order by rcode then ipStartInt: irreflexive and transitive; unordered exactly on equal rcode and start. |
| Prototype.Less2Order | main/main.go:39-41 | Order by descending child count: irreflexive and transitive; unordered exactly on equal counts. |
| Prototype.Swap | main/main.go:21-23 | Positions i and j are exchanged and nothing else changes. |
| Prototype.NewRecord | main/main.go:73-94 | A non-integer prefix gives Atoi's error; otherwise ncode and rcode are kept, there are no children, and the aligned block of that prefix holds the address. |
| Prototype.NextStartIP | main/main.go:96-100 | The start plus 2^(32-prefix), wrapping at 2^32. |
| Prototype.CanStartIsLowerHalf | main/main.go:102-108 | true exactly when the block is the lower half of its parent; never for /0. |
| Prototype.Merged | main/main.go:122-149 | The parent keeps first's ncode and rcode, has prefix one less and first's start masked to it. |
| Prototype.MergedLeaves | main/main.go:128-137 | The child list is first's leaves then second's; its length is the number of original records merged. |
| Prototype.NewParent | main/main.go:122-149 | The two appends build exactly that parent. |
| Prototype.IsCont | main/main.go:184-195 | An empty set accepts any record; otherwise rcode and ncode equal the first element's and the start is the last element's next start. |
| Prototype.PassLeaves | main/main.go:155-171 | A pass keeps every original record, in order. |
| Prototype.PassBlocksOf | main/main.go:155-171 | On a chain, merged records carry exactly the parent blocks. |
| Prototype.PassUnchanged | main/main.go:173-174 | On a chain, a pass that merges nothing returns its input. |
| Prototype.SumLeaves | main/main.go:151-178 | Sum keeps every original record, in order, in the children of the result. |
| Prototype.SumChain | main/main.go:151-178 | Sum keeps a chain a chain with the same ends. |
| Prototype.SumIsFixpoint | main/main.go:151-178 | On a chain, the result has no mergeable pair. |
| Prototype.SumIdempotent | main/main.go:151-178 | Summing twice is summing once. |
| Prototype.SumCovers | main/main.go:151-178 | Sum covers exactly the addresses of its chain. |
| Prototype.SumLoopPass | main/main.go:155-171 | The index loop computes one pass. |
| Prototype.SumPass | main/main.go:155-171 | The loop that builds set2 returns the pass. |
| Prototype.ContSet.Add | main/main.go:180-182 | Appends exactly one record. |
| Prototype.ContSet.Sum | main/main.go:151-178 | The set becomes its fix-point merge. |
| Prototype.EndIP | main/main.go:302-309 | Adds 1 << i for i below 32-prefix in uint32: the start plus 2^(32-prefix) - 1 modulo 2^32. |
| Prototype.EndIPNext | main/main.go:96-100 | The address after EndIP is NextStartIP for every prefix 0..32. |
| Prototype.EndIPLast | main/main.go:302-309 | For a valid block EndIP is its last address, with no wrap. |

## Left out

- HTTP fetching and posting, JSON encoding, logging (`cilog`, `printLog`, `Fprintln`), and the
  command-line drivers (`main` in `main/main.go` and `ipms-importer/main.go`, with their file
  scanning and random region assignment) are I/O.
- `PrintStartEndIP` in `main/main.go` is only printing.
- Reading and unmarshalling the YAML file is left out: `Config.NewYmlConfig` takes the
  unmarshalled record. Reading the IPMS text file and splitting lines on `|` is also left out:
  `Importer.ScanLines` takes the split lines, and a scanner error is not modelled.
- `sqlite-importer`, `ipms-to-report-collector`, `dummy-api-server` and `scripts/md_to_pdf.py`
  are not part of this model. They depend on code that is not shown, or they are I/O.
- `net.ParseCIDR` is modelled only on dotted-quad addresses (`Text.ParseIPv4`), as Go 1.17 and
  later parse them: an octet with a leading zero, as in `010.1.2.3`, is rejected. Go before 1.17
  read such an octet as decimal and would build a record from it; `IpmsRecord.NewRecord` and
  `Importer.Readable` exclude these addresses. A CIDR string is represented by its
  (address, prefix) pair; `Text.ParseIPv4Canonical` shows that an accepted address has exactly
  one text.
- IpmsRecord.NewRecordFromCIDR: takes a 4-byte address and a 4-byte mask only. A 16-byte
  address is left out: `IPStartInt` reads its first 4 bytes while `IPNet.String` prints its
  IPv4 form, so `::ffff:1.2.3.4` gives start 0 and text `1.2.3.4`. A 16-byte mask is also left
  out: `Prefix` counts all 128 bits while the text uses the last 4 bytes. A mask that is not a
  prefix mask gets prefix -1, and the model's CIDR `Cidr(start, -1)` stands for Go's text
  with the mask in hex, which is not spelled out.
- Error checked after use: `NewRecord` and `newParent` use the parsed network before they look
  at `ParseCIDR`'s error, so a malformed address or prefix panics. This is modelled as a
  precondition: `IpmsRecord.NewRecord` and `Prototype.NewRecord` require a parseable address
  and a prefix 0..32 when the prefix is an integer, and `newParent` requires a parent prefix.
  The same holds for `Importer.Readable`: a line must have the fields it indexes (index out of
  range panics in Go), and its address must parse. Only the lines the scan reaches must be
  readable (`Importer.ReadableUntilBad`); the lines after the first failing one are free.
- IpmsRecord.ContSet.Sum: requires the run to be a chain of valid blocks. Runs built by
  `IsCont` from sorted records are chains (`IpmsGetter.EndMeetsNext`), except where a /0
  block shares its keys with another record: `nextStartIP` of a /0 block is its own start,
  so a record with the same keys and the same start joins its run. To keep every run a chain, the getters require that no /0
  record shares its keys with another record (`IpmsGetter.WholeBlocksAlone`). This excludes
  more than the inputs Go panics on. Go panics on some of them, such as two equal /0 records
  or `0.0.0.0/0, 0.0.0.0/1, 128.0.0.0/1`, where `newParent` is asked for a /-1 parent. It
  returns a result on others, such as `0.0.0.0/0, 0.0.0.0/32, 0.0.0.1/32` (giving
  `0.0.0.0/0, 0.0.0.0/31`) or `0.0.0.0/0, 0.0.0.5/32` (two runs). Those results are not
  modelled.
- Prototype.ContSet.Sum: requires a chain, for the same reason.
- `recs` as a slice of pointers is modelled as values: no record is shared, so aliasing is not
  modelled.
- `sort.Sort` is modelled by `IpmsRecord.SortRecords`, an insertion sort, copied into the
  array by `IpmsRecord.SortInPlace`. Go's sort is not stable; every property here holds for
  any sorted permutation except `MergeIPMSRecords`' first ensures and `Importer.GetIPMSRecords`'
  last two ensures, which name this one.
- Importer.GetIPMSRecords: its grouped result is stated only for the insertion sort's order
  of records with equal sort keys; Go's unstable `sort.Sort` may order such ties (records
  with equal keys and start but different CIDR text) differently, and then the grouped CIDR
  lists differ.
- Strings are modelled as sequences of Unicode scalar values (`Text.StrLess` compares them
  char by char); text that is not UTF-8, which a Go string read from a file may hold, is not
  modelled.
- The prototype's sort orders are modelled as orders only; its `cidr` field is never set and is
  left out.
- The importer package does not build as shown: `ipms-importer/getter.go:158` passes five
  arguments to the six-argument `newRecord`, and line 208 reads a `RegionID` field the record
  does not have. `Importer.EntryRecord` passes an empty NetCode and stores the region id in
  the glbId field, which line 208 then reads.
- Grouping.Group: requires `FirstOk`, that the first item has a nonempty ServiceCode and a
  nonempty group id. That is exactly when the Go grouping loop does not dereference a nil
  pointer. When the first record's ServiceCode is empty and its GLBID (RegionID) is not,
  `scInfo` is still nil at `ipms/getter.go:186` (`ipms-importer/getter.go:212`). When its
  GLBID is empty, `rInfo` is still nil at `ipms/getter.go:188` (`ipms-importer/getter.go:214`).
  The panic is excluded by this precondition rather than modelled.
- IpmsGetter.MergeIPMSRecords: requires `FirstSortedHasKeys`, that the first sorted record has
  both keys. The first merged record carries those keys (`IpmsGetter.RunsSummedHead`), so this
  makes the merged records `FirstOk` (`IpmsGetter.MergedFirstOk`). Inputs on which the grouping loop panics are
  excluded, as for `Grouping.Group`. It also requires `WholeBlocksAlone`, as for
  `IpmsRecord.ContSet.Sum`.
- Importer.GetIPMSRecords: requires `FirstSortedHasKeys` and `WholeBlocksAlone` of the scanned
  records when the scan succeeds, for the same nil-pointer panic and /0 reasons.
- Importer.GetIPMSRecords: uses the run loop with the final flush (`IpmsGetter.CollectRuns`)
  rather than the loop as written; see Findings.
- The mis-grouping on a service change with an equal group id is modelled as written
  (`Grouping.SameGroupAcrossServices`, `Grouping.GroupExact`).

## Findings

| source | as written | input that shows it | evidently intended | confidence | as-written member | corrected member |
|---|---|---|---|---|---|---|
| ipms-importer/getter.go:182-194 | the run loop appends a summed run only when a non-contiguous record arrives and never flushes the last run | any nonempty record list, e.g. a single record: the result is empty | flush the last run after the loop, as `ipms/getter.go:165-168` does | not executed | Importer.CollectRunsAsWritten | IpmsGetter.CollectRuns |
