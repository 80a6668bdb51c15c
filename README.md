# dlconflict, modelled in Dafny

`dlconflict.c` is a load-time analysis that looks for symbols defined
globally by more than one loaded module. For every loaded module it:

- walks the module's dynamic section to find the symbol table, the string
  table and a symbol count. The count comes from a `DT_HASH` table or is
  derived from a `DT_GNU_HASH` table;
- validates every address against the module's `PT_LOAD` segments;
- copies one record per resolvable symbol into a growable vector. A record
  holds the module, the name, the type, the binding and a defined flag.

It then sorts the records with an in-place Lomuto quicksort under the key
(name as `strcmp`, binding, defined flag, type) and scans the sorted vector
for runs of neighbours that are global, defined and share a name. Each run is
one conflict.

This project models that core as follows.

- Module memory is replaced by typed regions: maps from addresses to dynamic
  arrays, 32-bit word tables, symbol tables and string tables.
- Every address the C code validates goes through the same segment
  validator, `dynamic_pointer`. The dynamic array address `base + p_vaddr`
  and the name address `strtab + st_name` are used unvalidated, as in C.
- Where the width of a value changes a result, the model writes it out.
  Address additions wrap modulo 2^64, `bucket_max` wraps modulo 2^32, and
  `first` is the 32-bit difference `buckets[i] - symoffset` read back as a
  signed `int` (`Elf.Int32Diff`). Loop counters and lengths are unbounded
  integers; "## Left out" lists them.
- Each part of the source keeps its own form:
  - The entry vector is a class over an array.
  - The sort works in place on that array.
  - The loops of `dynamic_pointer`, `gnu_hashtab_symbol_count`, `callback`
    and `entry_vec_stats` are methods with loop invariants. Each method is
    proved equal to a reference function.
  - The properties of those functions are lemmas.
  - `cmp_entry`, `conflict_condition` and `constant_to_str` are functions.

Files:

- `elf.dfy`: ELF types, constants, `st_info` decoding and `constant_to_str`.
- `segments.dfy`: `dynamic_pointer`.
- `hashtab.dfy`: the `DT_HASH` count and `gnu_hashtab_symbol_count`.
- `entries.dfy`: `struct entry`, `strcmp`, `cmp_entry`, `conflict_condition` and the defined flag.
- `entryvec.dfy`: `struct entry_vec` with `entry_vec_init` and `entry_vec_push`.
- `sort.dfy`: `swap_entry`, `entry_partition` and `entry_quicksort`.
- `conflicts.dfy`: the cursor scan of `entry_vec_stats`, both as written and corrected.
- `scan.dfy`: `callback` and the whole pass.
- `tieorder.dfy`: the conflict groups do not depend on how the quicksort orders entries with equal keys.

Four behaviours of the code differ from what the program evidently intends.
The model records each of them under "## Findings".

- After a reported group, the scan skips one more entry than the group
  (`dlconflict.c:213`). The evident intent is to resume at the first entry
  after the group. Both scans are modelled; this is Finding 1.
- The defined flag is `st_shndx` stored into a byte (`dlconflict.c:332`,
  `dlconflict.c:339`). Extraction stores it that way. The intended flag is
  non-zero exactly for a defined symbol; this is Finding 2.
- The extraction index is a 32-bit word (`dlconflict.c:317`), so a symbol
  count of 0xFFFFFFFF never ends the loop; this is Finding 3.
- The extraction loop visits the symbols 0 ..= count (`dlconflict.c:317`).
  That bound suits the `DT_GNU_HASH` count, which is the index of the last
  symbol. A `DT_HASH` count is `nchain`, the number of symbols, so the loop
  reads one record past the symbol table; this is Finding 4.

`conflict_condition` tests the defined flag of the first entry of a pair
only. This is not a defect: `Entries.ConflictPartnerDefined` proves that, on
a pair in `cmp_entry` order, the condition holds exactly when both entries
share a name and are global and defined.

The comment at `dlconflict.c:183-187` assumes that, after the sort, the
records the conflict condition selects are contiguous: the global, defined
records of one name. Those records can still differ in type and in the value
of the defined flag. `Entries.ConflictRunBetween` proves that every
neighbouring pair between two such records satisfies the condition, and
`Conflicts.GroupHoldsAllDefinitions` proves that one group holds all of them.

The quicksort is not stable. `Entries.SameKeyAdjacent` proves that records
with equal keys still end up adjacent. `TieOrder.GroupsIgnoreTieOrder` proves
that the groups do not depend on how ties are ordered, so a repeated scan of
unchanged modules reports the same groups.

## Model

| member | source | states |
|---|---|---|
| Elf.AddrAdd | dlconflict.c:258-259 | `base + p_vaddr` and `base + st_value` are unsigned 64-bit additions that wrap at 2^64 |
| Elf.StBind | dlconflict.c:324-325 | the binding is the high nibble of `st_info`: below 16, and binding * 16 + type gives back `st_info` |
| Elf.StType | dlconflict.c:325 | the type is the low nibble of `st_info`, below 16 |
| Elf.ConstantToStr | dlconflict.c:58-91 | an unknown selector prints "UNKNOWN"; a binding prints "UNKNOWN" or an `STB_` name, never a type name; a type prints "UNKNOWN" or an `STT_` name |
| Elf.BindingNames | dlconflict.c:58-71 | a binding prints by name exactly for the eight named classes; other values print "UNKNOWN"; named classes never share a name |
| Elf.TypeNames | dlconflict.c:72-90 | a type prints by name exactly for the ten named types and for (STT_LOPROC, STT_HIPROC]; STT_LOPROC itself prints "UNKNOWN"; named types never share a name |
| Segments.DynamicPointer | dlconflict.c:251-263 | the header loop returns null for address 0; it returns `addr` unchanged exactly when some PT_LOAD header has base+p_vaddr <= addr < base+p_vaddr+p_memsz (the `Resolvable` test that the rest of the model uses through `Resolve`); otherwise it returns null |
| Segments.NonLoadHeaderIrrelevant | dlconflict.c:256-257 | inserting a header that is not PT_LOAD anywhere in the list never changes whether an address resolves |
| Segments.InsideOrOutside | dlconflict.c:253-262 | a non-null address inside a loadable segment resolves to itself; an address outside every loadable segment is unresolvable |
| HashTab.EvenRun | dlconflict.c:240-242 | the inner chain walk: every word in the counted run is even, the word after it is odd, and the run stays inside the table |
| HashTab.MaxBuckets | dlconflict.c:236-245 | the running maximum over the first n buckets is at least every one of their `bucket_max` values |
| HashTab.CountChain | dlconflict.c:239-242 | the `for (j = first; (chains[j] & 1) == 0; j++) even++` loop counts exactly the even words before the first odd one |
| Elf.Int32Diff | dlconflict.c:238 | `int first = buckets[i] - symoffset`: the one value in [-2^31, 2^31) that differs from the difference by a multiple of 2^32, and the plain difference whenever that fits |
| HashTab.ChainEnd | dlconflict.c:226-243 | one bucket iteration: buckets at word 4 + 2*bloomsize, chains after nbuckets buckets, the walk starting at `chains[first]` with `first` the 32-bit difference buckets[i] - symoffset read as a signed `int`, result bucket + even in 32 bits |
| HashTab.GnuHashSymbolCount | dlconflict.c:218-248 | the bucket loop returns the maximum, over all buckets, of bucket value plus even-run length |
| HashTab.MaxBucketsAttained | dlconflict.c:244 | a maximum over at least one bucket equals the `bucket_max` of one of those buckets |
| HashTab.GnuCountIsMaximum | dlconflict.c:218-248 | the count is 0 with no buckets; otherwise it is at least every bucket's `bucket_max` and equal to one of them |
| HashTab.BucketMaxIsChainEnd | dlconflict.c:236-243 | without wrap-around in `bucket_max` or in `first`, `bucket_max` is at least the bucket value and is the symbol index of the last (odd) entry of its chain, with every chain word before it even |
| HashTab.GnuCountFindsLastSymbol | dlconflict.c:218-248 | when one bucket's chain reaches the last word of the table and no bucket wraps, the count is the last symbol index, symoffset + chain length - 1, whichever bucket that is |
| HashTab.HashAndGnuAgreeOnLastIndex | dlconflict.c:290-304 | for a symbol table of n entries described by both encodings, the intended `DT_HASH` bound `nchain - 1` and the `DT_GNU_HASH` count are both the last index n - 1, and `nchain` is one more than the GNU count |
| Entries.StrCmp | dlconflict.c:170 | `strcmp` on NUL-free names gives -1, 0 or 1, and 0 exactly when the names are equal |
| Entries.StrCmpIsLexicographic | dlconflict.c:170 | `strcmp` is negative exactly when the first name is byte-wise lexicographically below the second: a proper prefix of it, or smaller at the first position where they differ |
| Entries.StrCmpAntisymmetric | dlconflict.c:170 | swapping the arguments of `strcmp` flips the sign |
| Entries.StrCmpTransitive | dlconflict.c:170 | `strcmp` order is transitive |
| Entries.Cmp | dlconflict.c:167-181 | `cmp_entry` is 0 exactly when name, binding, defined flag and type all agree; it orders by the tuple (name, binding, defined flag, type): differing names decide as `strcmp` does, and otherwise the first differing field decides, the smaller value first; the byte differences stay within -255..255, so the `int` result cannot overflow |
| Entries.CmpAntisymmetric | dlconflict.c:167-181 | swapping the arguments of `cmp_entry` flips the sign |
| Entries.CmpTransitive | dlconflict.c:167-181 | `cmp_entry` is transitive, both non-strictly and strictly: a total preorder |
| Entries.SameKeyAdjacent | dlconflict.c:183-187 | in a sorted collection, everything between two entries with the same key has that key: equal keys are adjacent |
| Entries.SameNameContiguous | dlconflict.c:183-187 | in a sorted collection, entries with the same name are contiguous |
| Entries.ConflictCondition | dlconflict.c:188-194 | two neighbours conflict exactly when their names are equal, both are global, and the first is defined |
| Entries.ConflictPartnerDefined | dlconflict.c:188-194 | on a pair in `cmp_entry` order, the condition that tests only the first entry's flag holds exactly when both entries share a name and are global and defined |
| Entries.ConflictRunBetween | dlconflict.c:188-194 | between two global, defined entries of one name in a sorted collection, every neighbouring pair satisfies the conflict condition |
| Entries.TruncatedDefinedFlag | dlconflict.c:332-339 | `is_defined` as stored in an `unsigned char` is 0 exactly when `st_shndx` is a multiple of 256 |
| Entries.SectionIndex256ReadsUndefined | dlconflict.c:332-339 | section index 256 is not SHN_UNDEF, yet the stored flag is 0 |
| Entries.DefinedFlag | dlconflict.c:332 | the intended flag is 0 or 1, and non-zero exactly when `st_shndx` is not SHN_UNDEF |
| Entries.DefinedFlagAgreesBelow256 | dlconflict.c:332-339 | below 256 the stored and the intended flags agree on whether the symbol is defined |
| EntryVector.EntryVec.constructor | dlconflict.c:154-160 | `entry_vec_init`: a fresh buffer, n = 0, cap = 8, no contents |
| EntryVector.EntryVec.Push | dlconflict.c:143-152 | n grows by exactly 1; cap doubles exactly when n + 1 > cap; old entries are kept; `e` is stored at the old n; contents become old contents + [e]; n <= cap == buffer length still holds |
| Sort.SwapEntry | dlconflict.c:110-116 | the two cells are exchanged (even when they coincide), no other cell changes, and the multiset is unchanged |
| Sort.Partition | dlconflict.c:118-131 | pi is in [low, high] and holds the original `arr[high]`; everything in [low, pi) compares < 0 to it and everything in (pi, high] compares >= 0; only [low, high] is rearranged |
| Sort.JoinAroundPivot | dlconflict.c:137-139 | after the partition, sorting both sides in place leaves [low, high] sorted and a rearrangement of itself |
| Sort.Quicksort | dlconflict.c:133-140 | [low, high] ends sorted under `cmp_entry` and is a rearrangement of itself; cells outside are untouched; an empty or one-cell range is left as it was; high - low decreases |
| Sort.SortPrefix | dlconflict.c:355 | `entry_quicksort(data, 0, n - 1)` sorts the first n cells, as a rearrangement of them, for every n including 0 and 1, and leaves the rest of the buffer alone |
| Conflicts.RunFrom | dlconflict.c:201-203 | the inner loop's run: every pair inside it qualifies, the pair that ends it does not, and it stays inside the collection |
| Conflicts.ConflictScanAsWritten | dlconflict.c:196-216 | the cursor loop with `i += count` followed by the loop's `i++` returns exactly the groups of the as-written scan |
| Conflicts.ConflictScan | dlconflict.c:196-216 | the corrected cursor loop returns exactly the groups of the corrected scan |
| Conflicts.ScanAsWrittenShape | dlconflict.c:198-214 | every as-written group starts at a qualifying pair, has count >= 2, fits in the collection, cannot be extended forward, and groups do not overlap |
| Conflicts.ScanFromShape | dlconflict.c:198-214 | the same shape and ordering for the corrected groups |
| Conflicts.ScanFromStartsMaximal | dlconflict.c:198-203 | a corrected group cannot be extended backwards |
| Conflicts.ScanFromComplete | dlconflict.c:198-214 | every qualifying pair lies inside some corrected group |
| Conflicts.GroupsAreMaximalRuns | dlconflict.c:196-216 | the corrected groups are exactly the maximal runs of qualifying pairs: ordered, well-shaped, maximal at both ends, and covering every qualifying pair |
| Conflicts.GroupMembers | dlconflict.c:198-203 | in a sorted collection every group member has the group's name and is global and defined |
| Conflicts.GroupHoldsAllDefinitions | dlconflict.c:196-216 | in a sorted collection a group holds every global, defined entry of its name: several definitions are one group, not separate pairs |
| Conflicts.BackToBackConflictMissed | dlconflict.c:213 | for foo, foo, goo, goo (all global and defined), the as-written scan reports only the foo group and the corrected scan reports both |
| Conflicts.ThreeDefinitionsOneGroup | dlconflict.c:198-214 | one name defined globally in three modules is one group of three |
| Conflicts.LocalOrUndefinedPartnerIsNoConflict | dlconflict.c:188-194 | a global definition next to a local definition, or next to an undefined reference, of the same name is no group |
| Scan.FirstNull | dlconflict.c:288 | the walk's terminator is the first DT_NULL entry, and no entry before it is DT_NULL |
| Scan.WalkDynamic | dlconflict.c:288-312 | the loop over dynamic entries up to DT_NULL computes exactly the walk's tables and count |
| Scan.WalkFromCount | dlconflict.c:290-304 | from any entry on, the count never drops, covers every later hash entry's count, and equals the starting count or one of those counts |
| Scan.WalkFromSymtab | dlconflict.c:308-309 | from any entry on, the symbol table is the validated value of the last DT_SYMTAB entry, or is unchanged when there is none |
| Scan.WalkFromStrtab | dlconflict.c:305-306 | from any entry on, the string table is the validated value of the last DT_STRTAB entry, or is unchanged when there is none |
| Scan.HashCountIsNchain | dlconflict.c:290-296 | when the only hash table is one resolvable DT_HASH table, the symbol count is its `nchain` word, `hashtab[1]` |
| Scan.HashCountReadsPastTable | dlconflict.c:290-317 | when a module's only hash table is a `DT_HASH` table whose `nchain` equals the size of its symbol table, the last index the extraction loop visits is the table's size, one past its end, so the module's symbols cannot all be read inside the table |
| Scan.WalkCount | dlconflict.c:290-304 | the symbol count is at least every resolvable DT_HASH `hashtab[1]` and every resolvable DT_GNU_HASH count; it is 0 or one of them, so with both encodings the larger wins |
| Scan.WalkTables | dlconflict.c:305-310 | each table pointer is null when no entry before DT_NULL carries its tag, otherwise the validated value of the last such entry |
| Scan.NulFrom | dlconflict.c:333 | the name ends at the first NUL at or after its offset |
| Scan.CStringAt | dlconflict.c:333 | the name read at `strtab + st_name` is NUL-free, is the table's slice from that offset, and is followed by a NUL |
| Scan.SymbolEntry | dlconflict.c:322-340 | a record carries the module's name, the binding and type packed in `st_info` (binding * 16 + type == `st_info`), the defined flag `st_shndx % 256` as the byte-wide field stores it, and the NUL-free name that starts at `st_name` and ends at its NUL |
| Scan.ExtractUpToExactly | dlconflict.c:317-321 | every record is the record of a symbol below the bound whose `base + st_value` resolves; every such symbol's record is present; the number of records equals the number of such symbols |
| Scan.ExtractSymbols | dlconflict.c:317-342 | the loop over s = 0 ..= count appends exactly the records of the symbols whose `base + st_value` resolves, in symbol order |
| Scan.MaxCountLoopNeverExits | dlconflict.c:317 | with a symbol count of 0xFFFFFFFF, the guard `s <= symbol_count` holds for every value the 32-bit index takes; the index reaches the count and then wraps to 0, and iteration 2^32 + k revisits symbol k, so the loop never ends |
| Scan.SectionEntriesExactly | dlconflict.c:314-342 | a dynamic array with no symbol table, no string table or a zero count contributes nothing; otherwise it contributes exactly the resolving symbols among 0 ..= count |
| Scan.ScanDynamic | dlconflict.c:282-342 | one PT_DYNAMIC header: walk, skip rule, then extraction, appending exactly that section's records |
| Scan.ScanHeader | dlconflict.c:277-280 | a header that is not PT_DYNAMIC adds nothing; a PT_DYNAMIC one adds its section's records |
| Scan.Callback | dlconflict.c:266-346 | `callback` appends to the vector exactly the records of every PT_DYNAMIC header of the module, in header order, and keeps the vector valid |
| Scan.Collect | dlconflict.c:349-353 | a fresh vector followed by `callback` on every module in turn holds exactly all modules' records in enumeration order |
| Scan.RunScan | dlconflict.c:349-356 | the whole pass: the sorted collection is a rearrangement of all records, sorted under `cmp_entry`, and the groups are exactly the corrected scan's groups of it |
| TieOrder.KeysPermuted | dlconflict.c:133-140 | rearranging records rearranges their keys |
| TieOrder.SortedKeysUnique | dlconflict.c:167-181 | two sorted sequences of bare keys with the same multiset are equal |
| TieOrder.SortedPermutationsAgreeOnKeys | dlconflict.c:133-181 | two sorted arrangements of one collection have the same length and the same key at every position |
| TieOrder.RunFromKeys | dlconflict.c:201-203 | the inner run length depends only on the keys |
| TieOrder.ScanFromKeys | dlconflict.c:196-216 | the group scan depends only on the keys |
| TieOrder.GroupsIgnoreTieOrder | dlconflict.c:196-216 | any two sorted arrangements of one collection yield the same groups, covering the same keys: repeating the pass on unchanged modules reports the same groups up to the module order inside a group |
| TieOrder.ScenarioSorted | dlconflict.c:167-181 | the three-module scenario, as listed, is in `cmp_entry` order |
| TieOrder.ScenarioGroups | dlconflict.c:196-216 | in that order the scan reports the alloc_init pair and nothing else |
| TieOrder.ScenarioReportsOneGroup | dlconflict.c:196-216 | however the sort orders the scenario (alloc_init in A and B, helper in A, log local in A and global in C), the scan reports one group, the two alloc_init definitions |

## Left out

- Printing: `fprintf` reports, `constant_to_str` output and the "inspecting" line. The scan returns groups as (start, count) over the sorted records instead.
- `dl_iterate_phdr` and the `init` constructor hook. The loaded modules are a parameter of `Scan.RunScan`, given as a sequence.
- `vdie`, and failure of `malloc` and `realloc`. Allocation always succeeds; a fresh Dafny array stands in for `realloc`.
- `entry_vec_destroy`. Memory is not reclaimed in the model.
- Raw process memory. Reads go through typed maps from address to sequences. The `Readable` predicates require the tables a module's metadata names to exist. Reads outside a table are undefined behaviour in C and are not modelled.
- The 32-bit (`ELF32`) branches. Only the 64-bit layout is modelled.
- The Bloom filter contents and `bloomshift`. Only the Bloom area's size is used, to locate the buckets.
- `int` overflow of `n` and `cap` in the vector, of `i`, `k` and `count` in the scan, and of `i`, `j` and `even` in `gnu_hashtab_symbol_count`. These are unbounded integers in the model.
- Entries.StrCmp: only the sign of `strcmp` is modelled, because the source only tests the sign or compares with 0.
- HashTab.GnuHashSymbolCount: requires every bucket's walk to start inside the table and to meet an odd word inside it. An empty bucket starts its walk at a negative offset from the chains, which the model allows as long as that offset is still inside the table; what C does beyond that is undefined behaviour.
- Scan.ExtractSymbols: counts with an unbounded index, so with a count of 0xFFFFFFFF it stops after 2^32 symbols, where the C loop never ends (Finding 3).
- Scan.ExtractSymbols: requires symbols 0 ..= count to exist in the symbol table. For a module whose count is a `DT_HASH` `nchain`, that means a record after the last symbol, which C reads from whatever memory follows the table (Finding 4). Such a module, with a symbol table of exactly `nchain` records, is outside what the model scans.
- Scan.WalkDynamic: the dynamic array address `base + p_vaddr` is not validated by the source, and the model does not validate it either.
- Scan.RunScan: uses the corrected cursor scan `Conflicts.ConflictScan`. The scan as written is `Conflicts.ConflictScanAsWritten`, and Finding 1 relates the two.
- Scan.SymbolEntry: stores the defined flag as written, `st_shndx % 256`. The intended flag, `Entries.DefinedFlag`, agrees with it on defined-ness for every section index below 256 (`Entries.DefinedFlagAgreesBelow256`), so the two can differ only for modules with 256 or more sections.

## Findings

| source | as written | input that shows it | evidently intended | confidence | as-written member | corrected member |
|---|---|---|---|---|---|---|
| dlconflict.c:213 | after a group of `count` entries at `i`, the cursor moves by `count` and then by the loop's `i++`, so the next pair examined starts at `i + count + 1` | four global, defined records foo, foo, goo, goo: the pair (goo, goo) at index 2 is never examined, so the second conflict is not reported | resume at `i + count`, the first entry after the group, so that every maximal run is reported | high (not executed) | Conflicts.BackToBackConflictMissed | Conflicts.GroupsAreMaximalRuns |
| dlconflict.c:332-339 | `is_defined` is `st_shndx` stored into an `unsigned char`, keeping only its low 8 bits | a global symbol defined in section 256 (not SHN_UNDEF) is recorded with flag 0, as if undefined, so it can never take part in a conflict | the flag is non-zero exactly when `st_shndx` is not SHN_UNDEF | high (not executed) | Entries.SectionIndex256ReadsUndefined | Entries.DefinedFlag |
| dlconflict.c:317 | the extraction index `s` is a 32-bit `ElfW(Word)` compared with `s <= symbol_count` | a DT_HASH table whose `nchain` word is 0xFFFFFFFF, with resolvable symbol and string tables: after symbol 0xFFFFFFFF the index wraps to 0 and the guard still holds, so the loop never ends | visit the symbols 0 ..= count once and stop, as with a wider index | low (not executed) | Scan.MaxCountLoopNeverExits | Scan.ExtractSymbols |
| dlconflict.c:290-296, 317 | a `DT_HASH` count is `hashtab[1]`, `nchain`, and the loop visits symbols 0 ..= count | a module with only a `DT_HASH` table whose `nchain` is 2 and a symbol table of two records: the loop reads record 2, past the table, and may record a symbol that does not exist | the last symbol index is `nchain - 1`, as the `DT_GNU_HASH` count already is | medium (not executed) | Scan.HashCountReadsPastTable | HashTab.HashAndGnuAgreeOnLastIndex |
